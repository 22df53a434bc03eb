/** The hand-written Keccak-256 of monero_address.py: lanes permuted in place, then a byte
    sponge. Every loop nest is proved equal to the step mapping it stands for. */
module MoneroKeccak {
  import opened Fips202
  import opened LaneBits
  import opened ByteStrings

  // ----- one round, in place -----

  /** The turn at which "for x, for y" comes to lane i. */
  ghost function Turn(i: nat): (turn: nat)
    requires i < 25
    ensures turn < 25
  {
    5 * (i % 5) + i / 5
  }

  lemma TurnOfLane(x: nat, y: nat, i: nat)
    requires x < 5 && y < 5 && i < 25
    ensures Turn(i) == 5 * x + y <==> i == x + 5 * y
    ensures i == x + 5 * y ==> i % 5 == x
  {}

  /** The state after so many turns: the lanes visited so far have their column's effect added. */
  ghost function Visited(a: Lanes, d: seq<bv64>, turn: nat): Lanes
    requires |d| == 5
  {
    seq(25, i requires 0 <= i < 25 => if Turn(i) < turn then a[i] ^ d[i % 5] else a[i])
  }

  lemma VisitOne(a: Lanes, d: seq<bv64>, x: nat, y: nat)
    requires |d| == 5 && x < 5 && y < 5
    ensures var before := Visited(a, d, 5 * x + y);
            Visited(a, d, 5 * x + y + 1) == before[x + 5 * y := before[x + 5 * y] ^ d[x]]
  {
    hide Turn;
    forall i | 0 <= i < 25
      ensures Turn(i) == 5 * x + y <==> i == x + 5 * y
    {
      TurnOfLane(x, y, i);
    }
    TurnOfLane(x, y, x + 5 * y);
  }

  lemma VisitedAll(a: Lanes, d: seq<bv64>)
    requires |d| == 5
    ensures Visited(a, d, 0) == a
    ensures forall i :: 0 <= i < 25 ==> Visited(a, d, 25)[i] == a[i] ^ d[i % 5]
  {
    hide Turn;
  }

  /** The inner loop: one column. */
  method XorColumn(state: array<bv64>, d: seq<bv64>, x: nat, ghost a: Lanes)
    requires state.Length == 25 && |d| == 5 && x < 5 && state[..] == Visited(a, d, 5 * x)
    modifies state
    ensures state[..] == Visited(a, d, 5 * x + 5)
  {
    hide Visited;
    for y := 0 to 5
      invariant state[..] == Visited(a, d, 5 * x + y)
    {
      VisitOne(a, d, x, y);
      state[x + 5 * y] := state[x + 5 * y] ^ d[x];
    }
  }

  method XorColumns(state: array<bv64>, d: seq<bv64>)
    requires state.Length == 25 && |d| == 5
    modifies state
    ensures state[..] == Visited(old(state[..]), d, 25)
  {
    ghost var a: Lanes := state[..];
    VisitedAll(a, d);
    hide Visited;
    for x := 0 to 5
      invariant state[..] == Visited(a, d, 5 * x)
    {
      XorColumn(state, d, x, a);
    }
  }

  function Parities(a: Lanes): (c: seq<bv64>)
    ensures |c| == 5
  {
    hide ColumnParity;
    seq(5, x requires 0 <= x < 5 => ColumnParity(a, x))
  }

  function Effects(c: seq<bv64>): (d: seq<bv64>)
    requires |c| == 5
    ensures |d| == 5
  {
    seq(5, x requires 0 <= x < 5 => c[(x + 4) % 5] ^ Rotl64(c[(x + 1) % 5], 1))
  }

  lemma ParitiesAt(a: Lanes, x: nat)
    requires x < 5
    ensures Parities(a)[x] == ColumnParity(a, x)
  {
    hide ColumnParity;
  }

  lemma EffectsAreTheta(a: Lanes, x: nat)
    requires x < 5
    ensures Effects(Parities(a))[x] == ThetaEffect(a, x)
  {
    hide Rotl64, ColumnParity, Parities;
    ParitiesAt(a, (x + 4) % 5);
    ParitiesAt(a, (x + 1) % 5);
  }

  method ThetaInPlace(state: array<bv64>)
    requires state.Length == 25
    modifies state
    ensures state[..] == Theta(old(state[..]))
  {
    hide Rotl64, Parities, Effects, Theta, Visited;
    ghost var a: Lanes := state[..];
    var c := Parities(state[..]);
    var d := Effects(c);
    XorColumns(state, d);
    VisitedIsTheta(a);
  }

  lemma VisitedIsTheta(a: Lanes)
    ensures Visited(a, Effects(Parities(a)), 25) == Theta(a)
  {
    var d := Effects(Parities(a));
    VisitedAll(a, d);
    hide Rotl64, Parities, Effects, ThetaEffect, Visited;
    forall x | 0 <= x < 5
      ensures d[x] == ThetaEffect(a, x)
    {
      EffectsAreTheta(a, x);
    }
  }

  /** The place where lane (x, y) is written is read from nowhere else. */
  lemma DestinationHasOneSource(x: nat, y: nat, i: nat)
    requires x < 5 && y < 5 && i < 25
    ensures y + 5 * ((2 * x + 3 * y) % 5) < 25
    ensures PiSource(i) == x + 5 * y <==> i == y + 5 * ((2 * x + 3 * y) % 5)
  {
    var X, Y := i % 5, i / 5;
    assert i == X + 5 * Y;
    if X == y {
      SolvePi(x, y, Y);
    }
  }

  lemma SolvePi(x: nat, y: nat, Y: nat)
    requires x < 5 && y < 5 && Y < 5
    ensures (y + 3 * Y) % 5 == x <==> Y == (2 * x + 3 * y) % 5
  {
    if (y + 3 * Y) % 5 == x {
      ModFive(2 * x + 3 * y, Y, y + Y - 2 * ((y + 3 * Y) / 5));
    }
    if Y == (2 * x + 3 * y) % 5 {
      ModFive(y + 3 * Y, x, x + 2 * y - 3 * ((2 * x + 3 * y) / 5));
    }
  }

  lemma ModFive(n: int, r: int, k: int)
    requires n == r + 5 * k && 0 <= r < 5
    ensures n % 5 == r
  {}

  lemma RhoAt(a: Lanes, x: nat, y: nat)
    requires x < 5 && y < 5
    ensures Rho(a)[x + 5 * y] == Rotl64(a[x + 5 * y], Offset(x, y))
  {
    hide Rotl64, Offset;
    assert (x + 5 * y) % 5 == x && (x + 5 * y) / 5 == y;
  }

  method RhoPi(state: array<bv64>) returns (b: array<bv64>)
    requires state.Length == 25
    ensures b.Length == 25 && fresh(b)
    ensures b[..] == Pi(Rho(state[..]))
  {
    hide Rotl64, Offset, Rho, Turn, PiSource;
    ghost var a: Lanes := state[..];
    b := new bv64[25](i => 0);
    for x := 0 to 5
      invariant forall i :: 0 <= i < 25 && Turn(PiSource(i)) < 5 * x ==> b[i] == Rho(a)[PiSource(i)]
    {
      for y := 0 to 5
        invariant forall i :: 0 <= i < 25 && Turn(PiSource(i)) < 5 * x + y ==> b[i] == Rho(a)[PiSource(i)]
      {
        forall i | 0 <= i < 25
          ensures Turn(PiSource(i)) == 5 * x + y <==> i == y + 5 * ((2 * x + 3 * y) % 5)
        {
          DestinationHasOneSource(x, y, i);
          TurnOfLane(x, y, PiSource(i));
        }
        DestinationHasOneSource(x, y, y + 5 * ((2 * x + 3 * y) % 5));
        RhoAt(a, x, y);
        b[y + 5 * ((2 * x + 3 * y) % 5)] := Rotl64(state[x + 5 * y], Offset(x, y));
      }
    }
    assert b[..] == Pi(Rho(a));
  }

  lemma ChiAt(b: Lanes, x: nat, y: nat)
    requires x < 5 && y < 5
    ensures Chi(b)[x + 5 * y] == ChiLane(b, x, y)
  {
    hide ChiLane;
    assert (x + 5 * y) % 5 == x && (x + 5 * y) / 5 == y;
  }

  method ChiInPlace(state: array<bv64>, b: array<bv64>)
    requires state.Length == 25 && b.Length == 25 && state != b
    modifies state
    ensures state[..] == Chi(b[..])
  {
    hide Chi, ChiLane, Turn;
    for x := 0 to 5
      invariant forall i :: 0 <= i < 25 && Turn(i) < 5 * x ==> state[i] == Chi(b[..])[i]
    {
      for y := 0 to 5
        invariant forall i :: 0 <= i < 25 && Turn(i) < 5 * x + y ==> state[i] == Chi(b[..])[i]
      {
        forall i | 0 <= i < 25
          ensures Turn(i) == 5 * x + y <==> i == x + 5 * y
        {
          TurnOfLane(x, y, i);
        }
        ChiAt(b[..], x, y);
        state[x + 5 * y] := ChiLane(b[..], x, y);
      }
    }
  }

  lemma OneMoreRound(a: Lanes, rcs: seq<bv64>, k: nat)
    requires k < |rcs|
    ensures Rounds(a, rcs[..k + 1]) == Round(Rounds(a, rcs[..k]), rcs[k])
  {
    hide Round;
    assert rcs[..k + 1][..k] == rcs[..k];
  }

  method IotaInPlace(state: array<bv64>, rc: bv64)
    requires state.Length == 25
    modifies state
    ensures state[..] == Iota(old(state[..]), rc)
  {
    state[0] := state[0] ^ rc;
  }

  method RoundInPlace(state: array<bv64>, rc: bv64)
    requires state.Length == 25
    modifies state
    ensures state[..] == Round(old(state[..]), rc)
  {
    hide Theta, Rho, Pi, Chi, Iota;
    ThetaInPlace(state);
    var b := RhoPi(state);
    ChiInPlace(state, b);
    IotaInPlace(state, rc);
  }

  method KeccakF1600(state: array<bv64>)
    requires state.Length == 25
    modifies state
    ensures state[..] == KeccakF(old(state[..]))
  {
    hide Round, Rounds;
    ghost var a: Lanes := state[..];
    var rcs := ROUND_CONSTANTS;
    assert rcs[..0] == [];
    NoRounds(a);
    for k := 0 to |rcs|
      invariant state[..] == Rounds(a, rcs[..k])
    {
      OneMoreRound(a, rcs, k);
      RoundInPlace(state, rcs[k]);
    }
    assert rcs[..|rcs|] == rcs;
  }

  lemma NoRounds(a: Lanes)
    ensures Rounds(a, []) == a
  {}

  // ----- padding -----

  /** How many zero bytes follow the first padding byte. */
  function ZeroCount(length: nat): (k: nat)
    ensures k < RATE
  {
    RATE - 1 - length % RATE
  }

  function Zeros(k: nat): (z: seq<bv8>)
    ensures |z| == k
  {
    seq(k, i => 0)
  }

  function Marked(data: seq<bv8>): (m: seq<bv8>)
    ensures |m| == |data| + 1 + ZeroCount(|data|)
  {
    data + [0x01] + Zeros(ZeroCount(|data|))
  }

  function Pad(data: seq<bv8>): (padded: seq<bv8>)
    ensures |padded| == |data| + 1 + ZeroCount(|data|)
  {
    var m := Marked(data);
    m[|m| - 1 := m[|m| - 1] | 0x80]
  }

  /** The padding adds between 1 and RATE bytes and ends on a block boundary. */
  lemma PadLength(data: seq<bv8>)
    ensures 1 <= |Pad(data)| - |data| <= RATE
    ensures |Pad(data)| % RATE == 0
    ensures Pad(data)[..|data|] == data
  {}

  lemma PaddingByte(data: seq<bv8>, i: nat)
    requires |data| <= i < |Pad(data)|
    ensures Pad(data)[i] & 0x01 == if i == |data| then 0x01 else 0x00
  {
    assert Marked(data)[i] == if i == |data| then 0x01 else 0x00;
  }

  /** No two messages pad to the same bytes. */
  lemma PadInjective(a: seq<bv8>, b: seq<bv8>)
    requires Pad(a) == Pad(b)
    ensures a == b
  {
    PadLength(a);
    PadLength(b);
    if |a| < |b| {
      PaddingByte(a, |b|);
      PaddingByte(b, |b|);
    } else if |b| < |a| {
      PaddingByte(a, |a|);
      PaddingByte(b, |a|);
    }
  }

  lemma {:induction false} BitsOfSum(a: seq<bv8>, b: seq<bv8>)
    ensures Bits(a + b) == Bits(a) + Bits(b)
  {
    hide ByteBits;
    if a == [] {
      assert a + b == b;
    } else {
      assert (a + b)[1..] == a[1..] + b;
      BitsOfSum(a[1..], b);
    }
  }

  function NoBits(k: nat): (bits: seq<bool>)
    ensures |bits| == k
  {
    seq(k, i => false)
  }

  lemma {:induction false} BitsOfZeros(k: nat)
    ensures Bits(Zeros(k)) == NoBits(8 * k)
  {
    if k > 0 {
      assert Zeros(k)[1..] == Zeros(k - 1);
      BitsOfZeros(k - 1);
      assert ByteBits(0) == NoBits(8);
      assert NoBits(8) + NoBits(8 * (k - 1)) == NoBits(8 * k);
    }
  }

  function PadTail(k: nat): seq<bv8> {
    if k == 0 then [0x81] else [0x01] + (Zeros(k - 1) + [0x80])
  }

  lemma PadIsTail(data: seq<bv8>)
    ensures Pad(data) == data + PadTail(ZeroCount(|data|))
  {}

  lemma PadTailBits(k: nat)
    ensures Bits(PadTail(k)) == [true] + NoBits(8 * k + 6) + [true]
  {
    LastByteBits();
    if k > 0 {
      hide ByteBits, Bits;
      BitsOfSum([0x01], Zeros(k - 1) + [0x80]);
      BitsOfSum(Zeros(k - 1), [0x80]);
      BitsOfZeros(k - 1);
      assert NoBits(7) + (NoBits(8 * (k - 1)) + NoBits(7)) == NoBits(8 * k + 6);
    }
  }

  /** On bits, the byte padding is pad10*1 of the message length at rate 1088. */
  lemma PadIsPad101(data: seq<bv8>)
    ensures Bits(Pad(data)) == Bits(data) + Pad101(8 * RATE, 8 * |data|)
  {
    hide Bits, Pad, PadTail, Pad101;
    var k := ZeroCount(|data|);
    PadIsTail(data);
    BitsOfSum(data, PadTail(k));
    PadTailBits(k);
    PadZeroBits(|data|);
  }

  lemma LastByteBits()
    ensures Bits([0x81]) == [true] + NoBits(6) + [true]
    ensures Bits([0x01]) == [true] + NoBits(7)
    ensures Bits([0x80]) == NoBits(7) + [true]
  {
    assert Bits([0x81]) == ByteBits(0x81) + [];
    assert Bits([0x01]) == ByteBits(0x01) + [];
    assert Bits([0x80]) == ByteBits(0x80) + [];
  }

  lemma PadZeroBits(length: nat)
    ensures Pad101(8 * RATE, 8 * length) == [true] + NoBits(8 * ZeroCount(length) + 6) + [true]
  {
    var m: int := 8 * length;
    assert (-m - 2) % 1088 == 8 * (135 - length % 136) + 6;
  }

  // ----- the sponge -----

  lemma AbsorbOneMore(f: Lanes -> Lanes, a: Lanes, padded: seq<bv8>, i: nat)
    requires i % RATE == 0 && i + RATE <= |padded|
    ensures Absorb(f, a, padded[..i + RATE]) == f(XorBlock(Absorb(f, a, padded[..i]), padded[i..i + RATE]))
  {
    hide XorBlock;
    var upTo := padded[..i + RATE];
    assert upTo[..|upTo| - RATE] == padded[..i] && upTo[|upTo| - RATE..] == padded[i..i + RATE];
  }

  lemma LayOne(a: Lanes, block: seq<bv8>, j: nat)
    requires |block| == RATE && j < 17
    ensures LaidOver(a, block, 0) == a
    ensures var before := LaidOver(a, block, j);
            LaidOver(a, block, j + 1) == before[j := before[j] ^ LaneOf(block[8 * j..8 * j + 8])]
  {
    hide LaneOf;
  }

  method XorBlockInPlace(state: array<bv64>, block: seq<bv8>)
    requires state.Length == 25 && |block| == RATE
    modifies state
    ensures state[..] == XorBlock(old(state[..]), block)
  {
    ghost var a: Lanes := state[..];
    hide LaneOf, LaidOver;
    LayOne(a, block, 0);
    for j := 0 to RATE / 8
      invariant state[..] == LaidOver(a, block, j)
    {
      LayOne(a, block, j);
      state[j] := state[j] ^ LaneOf(block[8 * j..8 * j + 8]);
    }
  }

  method PadMessage(data: seq<bv8>) returns (padded: seq<bv8>)
    ensures padded == Pad(data)
  {
    padded := data + [0x01];
    ghost var zeros: nat := 0;
    while |padded| % RATE != 0
      invariant zeros <= ZeroCount(|data|) && padded == data + [0x01] + Zeros(zeros)
      decreases ZeroCount(|data|) - zeros
    {
      padded := padded + [0x00];
      zeros := zeros + 1;
    }
    assert padded == Marked(data);
    padded := padded[|padded| - 1 := padded[|padded| - 1] | 0x80];
  }

  method AbsorbInPlace(state: array<bv64>, padded: seq<bv8>)
    requires state.Length == 25 && state[..] == EmptyState() && |padded| % RATE == 0
    modifies state
    ensures state[..] == Absorb(KeccakF, EmptyState(), padded)
  {
    hide KeccakF, XorBlock;
    var i := 0;
    assert padded[..0] == [];
    while i < |padded|
      invariant 0 <= i <= |padded| && i % RATE == 0
      invariant state[..] == Absorb(KeccakF, EmptyState(), padded[..i])
    {
      AbsorbOneMore(KeccakF, EmptyState(), padded, i);
      XorBlockInPlace(state, padded[i..i + RATE]);
      KeccakF1600(state);
      i := i + RATE;
    }
    assert padded[..i] == padded;
  }

  method Keccak256Monero(data: seq<bv8>) returns (digest: seq<bv8>)
    ensures digest == Keccak256(data)
  {
    hide KeccakF, LaneBytes, Absorb;
    PadLength(data);
    var state := new bv64[25](i => 0);
    assert state[..] == EmptyState();
    var padded := PadMessage(data);
    AbsorbInPlace(state, padded);
    digest := [];
    for j := 0 to 4
      invariant |digest| == 8 * j
      invariant digest == StateBytes(state[..])[..8 * j]
    {
      digest := digest + LaneBytes(state[j]);
    }
  }

  /** The digest of a message: the sponge on its padding. */
  function Keccak256(data: seq<bv8>): (digest: seq<bv8>)
    ensures |digest| == 32
  {
    PadLength(data);
    Sponge256(Pad(data))
  }

  function AsBits(b: Byte): bv8 {
    b as bv8
  }

  function AsByte(b: bv8): Byte {
    b as int
  }

  /** Keccak-256 on bytes given as numbers. */
  function KeccakBytes(data: seq<Byte>): (digest: seq<Byte>)
    ensures |digest| == 32
  {
    hide Keccak256, AsBits, AsByte;
    var d := Keccak256(seq(|data|, i requires 0 <= i < |data| => AsBits(data[i])));
    seq(32, i requires 0 <= i < 32 => AsByte(d[i]))
  }
}
