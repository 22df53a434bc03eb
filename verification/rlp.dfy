/** Recursive length prefix: the encoding of the Ethereum Yellow Paper, Appendix B, and the
    strict decoder (canonical prefixes, no trailing bytes). They are inverse to each other. */
module Rlp {
  import opened Options
  import opened Numerals
  import opened ByteStrings

  datatype Item = Bytes(bytes: seq<Byte>) | List(items: seq<Item>)

  const MAX_LENGTH := Pow(256, 8)

  // ----- encoding -----

  /** The prefix of a payload of n bytes; offset is 128 for byte strings, 192 for lists.
      Payloads of 2^64 bytes or more have no encoding. */
  function Prefix(offset: nat, n: nat): (p: seq<Byte>)
    requires offset == 128 || offset == 192
    ensures p != [] && p[0] >= offset
  {
    hide Pow;
    if n < 56 then [offset + n]
    else if n < MAX_LENGTH then
      MinimalWidth(n, 8);
      [offset + 55 + |Minimal(n)|] + Minimal(n)
    else [offset]
  }

  function Encode(x: Item): (e: seq<Byte>)
    ensures e != [] && (x.List? ==> e[0] >= 192)
    decreases x, 1
  {
    match x
    case Bytes(b) => if |b| == 1 && b[0] < 128 then b else Prefix(128, |b|) + b
    case List(items) => Prefix(192, |EncodeAll(items)|) + EncodeAll(items)
  }

  function EncodeAll(items: seq<Item>): seq<Byte>
    decreases items, 0
  {
    if items == [] then [] else Encode(items[0]) + EncodeAll(items[1..])
  }

  predicate Encodable(x: Item)
    decreases x, 1
  {
    match x
    case Bytes(b) => |b| < MAX_LENGTH
    case List(items) => |EncodeAll(items)| < MAX_LENGTH && AllEncodable(items)
  }

  predicate AllEncodable(items: seq<Item>)
    decreases items, 0
  {
    items != [] ==> Encodable(items[0]) && AllEncodable(items[1..])
  }

  // ----- decoding -----

  /** Reads a length prefix: where the payload starts and how long it is. */
  function ReadPrefix(offset: nat, b: seq<Byte>): (r: Option<(nat, nat)>)
    requires offset == 128 || offset == 192
    requires b != [] && offset <= b[0] < offset + 64
    ensures r.Some? ==> 0 < r.value.0 && r.value.0 + r.value.1 <= |b|
  {
    var first := b[0] - offset;
    if first < 56 then
      if 1 + first <= |b| then Some((1, first)) else None
    else
      var width := first - 55;
      if |b| < 1 + width || b[1] == 0 then None
      else
        var n := IntOf(b[1..1 + width]);
        if n < 56 || |b| < 1 + width + n then None else Some((1 + width, n))
  }

  /** One item at the front of b, and how many bytes it takes. */
  function DecodeItem(b: seq<Byte>): (r: Option<(Item, nat)>)
    ensures r.Some? ==> 0 < r.value.1 <= |b|
    decreases |b|, 0
  {
    hide IntOf;
    if b == [] then None
    else if b[0] < 128 then Some((Bytes(b[..1]), 1))
    else if b[0] < 192 then
      match ReadPrefix(128, b)
      case None => None
      case Some((start, n)) =>
        if start == 1 && n == 1 && b[1] < 128 then None
        else Some((Bytes(b[start..start + n]), start + n))
    else
      match ReadPrefix(192, b)
      case None => None
      case Some((start, n)) =>
        match DecodeAll(b[start..start + n])
        case None => None
        case Some(items) => Some((List(items), start + n))
  }

  function DecodeAll(b: seq<Byte>): Option<seq<Item>>
    decreases |b|, 1
  {
    if b == [] then Some([])
    else
      match DecodeItem(b)
      case None => None
      case Some((x, n)) =>
        match DecodeAll(b[n..])
        case None => None
        case Some(rest) => Some([x] + rest)
  }

  /** The whole of b as one item; trailing bytes are refused. */
  function Decode(b: seq<Byte>): Option<Item> {
    match DecodeItem(b)
    case None => None
    case Some((x, n)) => if n == |b| then Some(x) else None
  }

  // ----- prefixes are read back -----

  lemma PrefixBounds(n: nat)
    requires 56 <= n < MAX_LENGTH
    ensures 1 <= |Minimal(n)| <= 8 && Minimal(n)[0] != 0 && IntOf(Minimal(n)) == n
  {
    hide Pow, IntOf, Minimal;
    MinimalWidth(n, 8);
    MinimalIsCanonical(n);
  }

  lemma PrefixRead(offset: nat, n: nat, rest: seq<Byte>)
    requires offset == 128 || offset == 192
    requires n < MAX_LENGTH && n <= |rest|
    ensures Prefix(offset, n)[0] < offset + 64
    ensures ReadPrefix(offset, Prefix(offset, n) + rest) == Some((|Prefix(offset, n)|, n))
    ensures |Prefix(offset, n)| == 1 <==> n < 56
  {
    hide Pow, IntOf, Minimal;
    if n >= 56 {
      PrefixBounds(n);
      var b := Prefix(offset, n) + rest;
      assert b[1..1 + |Minimal(n)|] == Minimal(n);
    }
  }

  lemma ReadPrefixSound(offset: nat, b: seq<Byte>)
    requires offset == 128 || offset == 192
    requires b != [] && offset <= b[0] < offset + 64
    requires ReadPrefix(offset, b).Some?
    ensures var (start, n) := ReadPrefix(offset, b).value;
            n < MAX_LENGTH && Prefix(offset, n) == b[..start] && (start == 1 <==> n < 56)
  {
    var (start, n) := ReadPrefix(offset, b).value;
    if start > 1 {
      assert Canonical(b[1..start]);
      hide Pow, IntOf, Minimal, Canonical;
      CanonicalIsMinimal(b[1..start]);
      MinimalWidth(n, 8);
    }
  }

  // ----- the two directions -----

  lemma {:induction false} DecodeEncodedItem(x: Item, rest: seq<Byte>)
    requires Encodable(x)
    ensures DecodeItem(Encode(x) + rest) == Some((x, |Encode(x)|))
    decreases x, 1
  {
    hide Prefix, ReadPrefix, Pow;
    var e := Encode(x);
    match x
    case Bytes(b) =>
      if |b| == 1 && b[0] < 128 {
        assert (e + rest)[..1] == b;
      } else {
        DecodeEncodedBytes(b, rest);
      }
    case List(items) =>
      var payload := EncodeAll(items);
      var p := Prefix(192, |payload|);
      PrefixRead(192, |payload|, payload + rest);
      DecodeEncodedAll(items);
      assert e + rest == p + (payload + rest);
      assert (e + rest)[|p|..|p| + |payload|] == payload;
  }

  lemma DecodeEncodedBytes(b: seq<Byte>, rest: seq<Byte>)
    requires |b| < MAX_LENGTH && !(|b| == 1 && b[0] < 128)
    ensures DecodeItem(Prefix(128, |b|) + b + rest) == Some((Bytes(b), |Prefix(128, |b|)| + |b|))
  {
    hide Prefix, ReadPrefix, Pow;
    var p := Prefix(128, |b|);
    PrefixRead(128, |b|, b + rest);
    assert p + b + rest == p + (b + rest);
    assert (p + b + rest)[|p|..|p| + |b|] == b;
  }

  lemma {:induction false} DecodeEncodedAll(items: seq<Item>)
    requires AllEncodable(items)
    ensures DecodeAll(EncodeAll(items)) == Some(items)
    decreases items, 0
  {
    if items != [] {
      hide DecodeItem, Encode, Encodable;
      var tail := EncodeAll(items[1..]);
      DecodeEncodedItem(items[0], tail);
      DecodeEncodedAll(items[1..]);
      assert (Encode(items[0]) + tail)[|Encode(items[0])|..] == tail;
      assert [items[0]] + items[1..] == items;
    }
  }

  lemma DecodedListItem(b: seq<Byte>)
    requires b != [] && b[0] >= 192 && DecodeItem(b).Some?
    ensures ReadPrefix(192, b).Some?
    ensures var (start, n) := ReadPrefix(192, b).value;
            && DecodeAll(b[start..start + n]).Some?
            && DecodeItem(b).value == (List(DecodeAll(b[start..start + n]).value), start + n)
  {
    hide ReadPrefix, DecodeAll;
  }

  lemma EncodedList(items: seq<Item>, b: seq<Byte>, start: nat, n: nat)
    requires start + n <= |b| && n < MAX_LENGTH
    requires AllEncodable(items) && EncodeAll(items) == b[start..start + n] && Prefix(192, n) == b[..start]
    ensures Encodable(List(items)) && Encode(List(items)) == b[..start + n]
  {
    hide AllEncodable, EncodeAll, Prefix, Pow;
    assert b[..start + n] == b[..start] + b[start..start + n];
  }

  lemma {:induction false} EncodeDecodedItem(b: seq<Byte>)
    requires DecodeItem(b).Some?
    ensures var (x, n) := DecodeItem(b).value; Encodable(x) && Encode(x) == b[..n]
    decreases |b|, 0
  {
    if b[0] < 128 {
      EncodeDecodedByte(b);
    } else if b[0] < 192 {
      EncodeDecodedBytes(b);
    } else {
      DecodedListItem(b);
      ReadPrefixSound(192, b);
      hide Prefix, ReadPrefix, Pow, DecodeItem, DecodeAll, Encode, Encodable, EncodeAll, AllEncodable;
      var (start, n) := ReadPrefix(192, b).value;
      EncodeDecodedAll(b[start..start + n]);
      EncodedList(DecodeAll(b[start..start + n]).value, b, start, n);
    }
  }

  lemma EncodeDecodedByte(b: seq<Byte>)
    requires b != [] && b[0] < 128
    ensures DecodeItem(b) == Some((Bytes(b[..1]), 1))
    ensures Encodable(Bytes(b[..1])) && Encode(Bytes(b[..1])) == b[..1]
  {
    assert 1 < MAX_LENGTH;
  }

  lemma EncodeDecodedBytes(b: seq<Byte>)
    requires b != [] && 128 <= b[0] < 192 && DecodeItem(b).Some?
    ensures var (x, n) := DecodeItem(b).value; Encodable(x) && Encode(x) == b[..n]
  {
    hide Prefix, ReadPrefix, Pow;
    var (start, n) := ReadPrefix(128, b).value;
    ReadPrefixSound(128, b);
    assert b[..start + n] == b[..start] + b[start..start + n];
  }

  lemma {:induction false} EncodeDecodedAll(b: seq<Byte>)
    requires DecodeAll(b).Some?
    ensures AllEncodable(DecodeAll(b).value) && EncodeAll(DecodeAll(b).value) == b
    decreases |b|, 1
  {
    hide DecodeItem, DecodeAll, Encode, Encodable, EncodeAll, AllEncodable;
    if b == [] {
      NothingDecoded();
    } else {
      DecodedFront(b);
      var (x, n) := DecodeItem(b).value;
      var rest := DecodeAll(b[n..]).value;
      EncodeDecodedItem(b);
      EncodeDecodedAll(b[n..]);
      EncodeCons(x, rest);
      assert b == b[..n] + b[n..];
    }
  }

  lemma NothingDecoded()
    ensures DecodeAll([]) == Some([]) && AllEncodable([]) && EncodeAll([]) == []
  {}

  lemma DecodedFront(b: seq<Byte>)
    requires b != [] && DecodeAll(b).Some?
    ensures DecodeItem(b).Some?
    ensures var (x, n) := DecodeItem(b).value;
            DecodeAll(b[n..]).Some? && DecodeAll(b) == Some([x] + DecodeAll(b[n..]).value)
  {
    hide DecodeItem;
  }

  lemma EncodeCons(x: Item, rest: seq<Item>)
    ensures AllEncodable([x] + rest) <==> Encodable(x) && AllEncodable(rest)
    ensures EncodeAll([x] + rest) == Encode(x) + EncodeAll(rest)
  {
    hide Encode, Encodable;
    assert ([x] + rest)[1..] == rest;
  }

  /** Strict decoding accepts exactly the encodings, and each as the item it encodes. */
  lemma DecodeIsInverse(b: seq<Byte>, x: Item)
    ensures Decode(b) == Some(x) <==> Encodable(x) && b == Encode(x)
  {
    hide DecodeItem, Encode, Encodable;
    if Encodable(x) && b == Encode(x) {
      DecodeEncodedItem(x, []);
      assert b + [] == b;
    }
    if Decode(b) == Some(x) {
      EncodeDecodedItem(b);
    }
  }
}
