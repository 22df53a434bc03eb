/** Byte strings and big-endian integers, of fixed and of minimal width. */
module ByteStrings {
  import opened Numerals

  type Byte = b: nat | b < 256

  lemma DigitsAreBytes(n: nat, width: nat)
    ensures forall i :: 0 <= i < width ==> Digits(n, width, 256)[i] < 256
  {
    DigitsInBase(n, width, 256);
  }

  function BigEndian(n: nat, width: nat): (bytes: seq<Byte>)
    ensures |bytes| == width
  {
    DigitsAreBytes(n, width);
    seq(width, i requires 0 <= i < width => Digits(n, width, 256)[i])
  }

  /** The integer a byte string stands for; the empty string is zero. */
  function IntOf(bytes: seq<Byte>): nat {
    Value(bytes, 256)
  }

  predicate Canonical(bytes: seq<Byte>) {
    bytes != [] ==> bytes[0] != 0
  }

  /** The shortest byte string of an integer. */
  function Minimal(n: nat): seq<Byte>
    decreases n
  {
    if n == 0 then [] else Minimal(n / 256) + [n % 256]
  }

  lemma {:induction false} MinimalIsCanonical(n: nat)
    ensures Canonical(Minimal(n)) && IntOf(Minimal(n)) == n
    ensures Minimal(n) == [] <==> n == 0
    decreases n
  {
    if n > 0 {
      var init := Minimal(n / 256);
      MinimalIsCanonical(n / 256);
      assert Minimal(n)[..|init|] == init;
    }
  }

  lemma {:induction false} CanonicalIsMinimal(bytes: seq<Byte>)
    requires Canonical(bytes)
    ensures Minimal(IntOf(bytes)) == bytes
    ensures bytes != [] ==> IntOf(bytes) > 0
  {
    if bytes != [] {
      var init := bytes[..|bytes| - 1];
      CanonicalIsMinimal(init);
      assert bytes == init + [bytes[|bytes| - 1]];
    }
  }

  /** A canonical integer has no more bytes than its bound needs. */
  lemma {:induction false} MinimalWidth(n: nat, width: nat)
    ensures n < Pow(256, width) <==> |Minimal(n)| <= width
    decreases width
  {
    if width == 0 {
      MinimalIsCanonical(n);
    } else if n > 0 {
      MinimalWidth(n / 256, width - 1);
    } else {
      PowPositive(width);
    }
  }

  lemma {:induction false} PowPositive(width: nat)
    ensures Pow(256, width) > 0
  {
    if width > 0 {
      PowPositive(width - 1);
    }
  }
}
