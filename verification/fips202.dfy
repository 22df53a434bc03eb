/** Reference definitions from FIPS 202: the five step mappings of Keccak-f[1600]
    (sections 3.2.1 to 3.2.5), the round constants as the output of their shift register,
    the rho offsets as the walk that defines them, pad10*1 on bits (section 5.1) and the
    sponge (section 4) at rate 136 bytes. A lane is a 64-bit vector whose bit z is A[x,y,z]. */
module Fips202 {
  import opened LaneBits

  type Lanes = a: seq<bv64> | |a| == 25 witness seq(25, i => 0)

  // ----- the step mappings -----

  function At(a: Lanes, x: nat, y: nat): bv64
    requires x < 5 && y < 5
  {
    a[x + 5 * y]
  }

  function ColumnParity(a: Lanes, x: nat): bv64
    requires x < 5
  {
    a[x] ^ a[x + 5] ^ a[x + 10] ^ a[x + 15] ^ a[x + 20]
  }

  function ThetaEffect(a: Lanes, x: nat): bv64
    requires x < 5
  {
    ColumnParity(a, (x + 4) % 5) ^ Rotl64(ColumnParity(a, (x + 1) % 5), 1)
  }

  function Theta(a: Lanes): Lanes {
    seq(25, i requires 0 <= i < 25 => a[i] ^ ThetaEffect(a, i % 5))
  }

  /** The offset of lane (x, y) is OFFSETS[y][x]. */
  const OFFSETS: seq<seq<nat>> := [
    [ 0,  1, 62, 28, 27],
    [36, 44,  6, 55, 20],
    [ 3, 10, 43, 25, 39],
    [41, 45, 15, 21,  8],
    [18,  2, 61, 56, 14]]

  function OffsetAt(x: nat, y: nat): (n: nat)
    requires x < 5 && y < 5
    ensures n < 64
  {
    OFFSETS[y][x]
  }

  function Offset(x: nat, y: nat): (n: bv64)
    requires x < 5 && y < 5
    ensures n < 64
  {
    hide OffsetAt;
    OffsetAt(x, y) as bv64
  }

  function Rho(a: Lanes): Lanes {
    seq(25, i requires 0 <= i < 25 => Rotl64(a[i], Offset(i % 5, i / 5)))
  }

  /** Section 3.2.3: lane (x, y) is taken from lane ((x + 3y) mod 5, x). */
  function PiSource(i: nat): (s: nat)
    requires i < 25
    ensures s < 25
  {
    (i % 5 + 3 * (i / 5)) % 5 + 5 * (i % 5)
  }

  function Pi(a: Lanes): Lanes {
    seq(25, i requires 0 <= i < 25 => a[PiSource(i)])
  }

  function ChiLane(a: Lanes, x: nat, y: nat): bv64
    requires x < 5 && y < 5
  {
    At(a, x, y) ^ (!At(a, (x + 1) % 5, y) & At(a, (x + 2) % 5, y))
  }

  function Chi(a: Lanes): Lanes {
    seq(25, i requires 0 <= i < 25 => ChiLane(a, i % 5, i / 5))
  }

  const ROUND_CONSTANTS: seq<bv64> := [
    0x0000000000000001, 0x0000000000008082, 0x800000000000808A,
    0x8000000080008000, 0x000000000000808B, 0x0000000080000001,
    0x8000000080008081, 0x8000000000008009, 0x000000000000008A,
    0x0000000000000088, 0x0000000080008009, 0x000000008000000A,
    0x000000008000808B, 0x800000000000008B, 0x8000000000008089,
    0x8000000000008003, 0x8000000000008002, 0x8000000000000080,
    0x000000000000800A, 0x800000008000000A, 0x8000000080008081,
    0x8000000000008080, 0x0000000080000001, 0x8000000080008008]

  function Iota(a: Lanes, rc: bv64): Lanes {
    seq(25, i requires 0 <= i < 25 => if i == 0 then a[i] ^ rc else a[i])
  }

  function Round(a: Lanes, rc: bv64): Lanes {
    Iota(Chi(Pi(Rho(Theta(a)))), rc)
  }

  function Rounds(a: Lanes, rcs: seq<bv64>): Lanes {
    if rcs == [] then a else Round(Rounds(a, rcs[..|rcs| - 1]), rcs[|rcs| - 1])
  }

  function KeccakF(a: Lanes): Lanes {
    Rounds(a, ROUND_CONSTANTS)
  }

  // ----- where the two tables come from -----

  /** The positions of the walk of section 3.2.2. */
  const RHO_WALK: seq<(nat, nat)> := [
    (1, 0), (0, 2), (2, 1), (1, 2), (2, 3), (3, 3), (3, 0), (0, 1), (1, 3), (3, 1), (1, 4), (4, 4),
    (4, 0), (0, 3), (3, 4), (4, 3), (3, 2), (2, 2), (2, 0), (0, 4), (4, 2), (2, 4), (4, 1), (1, 1)]

  lemma RhoWalkSteps(t: nat)
    requires t < 23
    ensures |RHO_WALK| == 24 && RHO_WALK[0] == (1, 0)
    ensures RHO_WALK[t + 1] == (RHO_WALK[t].1, (2 * RHO_WALK[t].0 + 3 * RHO_WALK[t].1) % 5)
  {}

  /** The walk meets every lane but (0, 0). */
  lemma RhoWalkMeets(x: nat, y: nat)
    requires x < 5 && y < 5 && (x, y) != (0, 0)
    ensures (x, y) in RHO_WALK
  {}

  lemma RhoWalkInside(t: nat)
    requires t < 24
    ensures RHO_WALK[t].0 < 5 && RHO_WALK[t].1 < 5
  {}

  function WalkOffset(t: nat): nat
    requires t < 24
  {
    RhoWalkInside(t);
    OFFSETS[RHO_WALK[t].1][RHO_WALK[t].0]
  }

  lemma WalkOffsetStepLow(t: nat)
    requires t < 12
    ensures WalkOffset(t + 1) == (WalkOffset(t) + t + 2) % 64
  {}

  lemma WalkOffsetStepHigh(t: nat)
    requires 12 <= t < 23
    ensures WalkOffset(t + 1) == (WalkOffset(t) + t + 2) % 64
  {}

  function Triangle(t: nat): nat {
    (t + 1) * (t + 2) / 2
  }

  lemma TriangleStep(t: nat)
    ensures Triangle(t + 1) == Triangle(t) + t + 2
  {
    assert (t + 2) * (t + 3) == (t + 1) * (t + 2) + 2 * (t + 2);
  }

  /** The walk starts at (1, 0) and goes from each (x, y) to (y, 2x + 3y mod 5); its step t gives out
      the offset (t + 1)(t + 2) / 2 mod 64; lane (0, 0) has none. */
  lemma {:induction false} OffsetsFollowWalk(t: nat)
    requires t < 24
    ensures OFFSETS[0][0] == 0 && |RHO_WALK| == 24 && RHO_WALK[0] == (1, 0)
    ensures t < 23 ==> RHO_WALK[t + 1] == (RHO_WALK[t].1, (2 * RHO_WALK[t].0 + 3 * RHO_WALK[t].1) % 5)
    ensures WalkOffset(t) == Triangle(t) % 64
  {
    hide WalkOffset, Triangle;
    if t < 23 {
      RhoWalkSteps(t);
    }
    if t == 0 {
      FirstOffset();
    } else {
      OffsetsFollowWalk(t - 1);
      NextOffset(t - 1);
    }
  }

  lemma FirstOffset()
    ensures WalkOffset(0) == 1 && Triangle(0) == 1
  {}

  lemma NextOffset(t: nat)
    requires t < 23 && WalkOffset(t) == Triangle(t) % 64
    ensures WalkOffset(t + 1) == Triangle(t + 1) % 64
  {
    hide WalkOffset, Triangle;
    if t < 12 {
      WalkOffsetStepLow(t);
    } else {
      WalkOffsetStepHigh(t);
    }
    TriangleStep(t);
    ModStep(WalkOffset(t), Triangle(t), t + 2);
  }

  lemma ModStep(r: nat, n: nat, k: nat)
    requires r == n % 64
    ensures (r + k) % 64 == (n + k) % 64
  {}

  /** The 8-bit register of section 3.2.5, bit i standing for R[i]. */
  function RegisterStep(r: bv8): bv8 {
    (r << 1) ^ (if r & 0x80 != 0 then 0x71 else 0)
  }

  function Register(t: nat): bv8 {
    if t == 0 then 1 else RegisterStep(Register(t - 1))
  }

  /** The output bit of the register placed at one bit of the round constant. */
  function OutputAt(r: bv8, position: bv64): bv64
    requires position < 64
  {
    if r & 1 != 0 then 1 << position else 0
  }

  /** Seven output bits from register value r on: bit j goes to position 2^j - 1. */
  function SevenOutputs(r: bv8): bv64 {
    var r1 := RegisterStep(r);
    var r2 := RegisterStep(r1);
    var r3 := RegisterStep(r2);
    var r4 := RegisterStep(r3);
    var r5 := RegisterStep(r4);
    var r6 := RegisterStep(r5);
    OutputAt(r, 0) | OutputAt(r1, 1) | OutputAt(r2, 3) | OutputAt(r3, 7)
    | OutputAt(r4, 15) | OutputAt(r5, 31) | OutputAt(r6, 63)
  }

  /** Section 3.2.5: bit 2^j - 1 of round constant i is rc(j + 7i), for j = 0 .. 6. */
  function RoundConstant(round: nat): bv64 {
    SevenOutputs(Register(7 * round))
  }

  /** The register at the start of each round. */
  const REGISTER_BY_ROUND: seq<bv8> := [
    0x01, 0x80, 0xd8, 0x1a, 0xdf, 0x09, 0x35, 0x4f, 0xca, 0x70, 0x41, 0xec,
    0xd5, 0xcd, 0x63, 0xab, 0xaa, 0x2a, 0xf2, 0xe8, 0x37, 0x3e, 0x0b, 0x44]

  function SevenSteps(r: bv8): bv8 {
    RegisterStep(RegisterStep(RegisterStep(RegisterStep(RegisterStep(RegisterStep(RegisterStep(r)))))))
  }

  lemma RegisterSevenOn(t: nat)
    ensures Register(t + 7) == SevenSteps(Register(t))
  {
    assert Register(t + 2) == RegisterStep(RegisterStep(Register(t)));
    assert Register(t + 4) == RegisterStep(RegisterStep(Register(t + 2)));
    assert Register(t + 6) == RegisterStep(RegisterStep(Register(t + 4)));
  }

  lemma SevenStepsLow(round: nat)
    requires round < 12
    ensures SevenSteps(REGISTER_BY_ROUND[round]) == REGISTER_BY_ROUND[round + 1]
  {}

  lemma SevenStepsHigh(round: nat)
    requires 12 <= round < 23
    ensures SevenSteps(REGISTER_BY_ROUND[round]) == REGISTER_BY_ROUND[round + 1]
  {}

  lemma SevenStepsByRound(round: nat)
    requires round < 23
    ensures SevenSteps(REGISTER_BY_ROUND[round]) == REGISTER_BY_ROUND[round + 1]
  {
    hide SevenSteps;
    if round < 12 {
      SevenStepsLow(round);
    } else {
      SevenStepsHigh(round);
    }
  }

  lemma {:induction false} RegisterAtRound(round: nat)
    requires round < 24
    ensures Register(7 * round) == REGISTER_BY_ROUND[round]
  {
    if round > 0 {
      RegisterAtRound(round - 1);
      RegisterSevenOn(7 * (round - 1));
      SevenStepsByRound(round - 1);
    }
  }

  lemma OutputsOfRounds0To11()
    ensures SevenOutputs(0x01) == 0x0000000000000001 && SevenOutputs(0x80) == 0x0000000000008082
    ensures SevenOutputs(0xd8) == 0x800000000000808A && SevenOutputs(0x1a) == 0x8000000080008000
    ensures SevenOutputs(0xdf) == 0x000000000000808B && SevenOutputs(0x09) == 0x0000000080000001
    ensures SevenOutputs(0x35) == 0x8000000080008081 && SevenOutputs(0x4f) == 0x8000000000008009
    ensures SevenOutputs(0xca) == 0x000000000000008A && SevenOutputs(0x70) == 0x0000000000000088
    ensures SevenOutputs(0x41) == 0x0000000080008009 && SevenOutputs(0xec) == 0x000000008000000A
  {}

  lemma OutputsOfRounds12To23()
    ensures SevenOutputs(0xd5) == 0x000000008000808B && SevenOutputs(0xcd) == 0x800000000000008B
    ensures SevenOutputs(0x63) == 0x8000000000008089 && SevenOutputs(0xab) == 0x8000000000008003
    ensures SevenOutputs(0xaa) == 0x8000000000008002 && SevenOutputs(0x2a) == 0x8000000000000080
    ensures SevenOutputs(0xf2) == 0x000000000000800A && SevenOutputs(0xe8) == 0x800000008000000A
    ensures SevenOutputs(0x37) == 0x8000000080008081 && SevenOutputs(0x3e) == 0x8000000000008080
    ensures SevenOutputs(0x0b) == 0x0000000080000001 && SevenOutputs(0x44) == 0x8000000080008008
  {}

  /** The table of round constants is what the shift register puts out. */
  lemma RoundConstantsFromRegister(round: nat)
    requires round < 24
    ensures ROUND_CONSTANTS[round] == RoundConstant(round)
  {
    hide SevenOutputs, Register;
    RegisterAtRound(round);
    OutputsOfRounds0To11();
    OutputsOfRounds12To23();
  }

  // ----- bytes, padding and the sponge -----

  function LaneOf(b: seq<bv8>): bv64
    requires |b| == 8
  {
    (b[0] as bv64) | (b[1] as bv64 << 8) | (b[2] as bv64 << 16) | (b[3] as bv64 << 24)
    | (b[4] as bv64 << 32) | (b[5] as bv64 << 40) | (b[6] as bv64 << 48) | (b[7] as bv64 << 56)
  }

  function LowByte(lane: bv64): bv8 {
    (lane & 0xff) as bv8
  }

  function LaneBytes(lane: bv64): (b: seq<bv8>)
    ensures |b| == 8
  {
    [LowByte(lane), LowByte(lane >> 8), LowByte(lane >> 16), LowByte(lane >> 24),
     LowByte(lane >> 32), LowByte(lane >> 40), LowByte(lane >> 48), LowByte(lane >> 56)]
  }

  lemma LaneBytesOfLane(b: seq<bv8>)
    requires |b| == 8
    ensures LaneBytes(LaneOf(b)) == b
  {}

  const RATE := 136

  /** Section B.1: a byte is eight bits, the least significant first. */
  function ByteBits(b: bv8): (bits: seq<bool>)
    ensures |bits| == 8
  {
    [b & 0x01 != 0, b & 0x02 != 0, b & 0x04 != 0, b & 0x08 != 0,
     b & 0x10 != 0, b & 0x20 != 0, b & 0x40 != 0, b & 0x80 != 0]
  }

  function Bits(bytes: seq<bv8>): (bits: seq<bool>)
    ensures |bits| == 8 * |bytes|
  {
    if bytes == [] then [] else ByteBits(bytes[0]) + Bits(bytes[1..])
  }

  /** Algorithm 9: what pad10*1 appends to a string of m bits at rate x. */
  function Pad101(x: nat, m: nat): seq<bool>
    requires x > 0
  {
    [true] + seq((-(m as int) - 2) % x, i => false) + [true]
  }

  /** The first so many lanes of a block laid over the state. */
  function LaidOver(a: Lanes, block: seq<bv8>, lanes: nat): Lanes
    requires |block| == RATE && lanes <= 17
  {
    hide LaneOf;
    seq(25, i requires 0 <= i < 25 => if i < lanes then a[i] ^ LaneOf(block[8 * i..8 * i + 8]) else a[i])
  }

  /** S xor (P || 0^c): a block of RATE bytes laid over the first 17 lanes. */
  function XorBlock(a: Lanes, block: seq<bv8>): Lanes
    requires |block| == RATE
  {
    LaidOver(a, block, 17)
  }

  /** The absorbing phase of SPONGE[f], one block after another. */
  function Absorb(f: Lanes -> Lanes, a: Lanes, blocks: seq<bv8>): Lanes
    requires |blocks| % RATE == 0
    decreases |blocks|
  {
    if blocks == [] then a
    else f(XorBlock(Absorb(f, a, blocks[..|blocks| - RATE]), blocks[|blocks| - RATE..]))
  }

  function StateBytes(a: Lanes): (bytes: seq<bv8>)
    ensures |bytes| == 200
  {
    seq(200, i requires 0 <= i < 200 => LaneBytes(a[i / 8])[i % 8])
  }

  function EmptyState(): Lanes {
    seq(25, i => 0)
  }

  /** A block laid over the empty state is read back from it: lanes are little-endian both ways. */
  lemma BlockReadsBack(block: seq<bv8>)
    requires |block| == RATE
    ensures StateBytes(XorBlock(EmptyState(), block))[..RATE] == block
  {
    hide LaneOf, LaneBytes;
    forall i | 0 <= i < RATE
      ensures StateBytes(XorBlock(EmptyState(), block))[i] == block[i]
    {
      var lane := block[8 * (i / 8)..8 * (i / 8) + 8];
      assert 0 ^ LaneOf(lane) == LaneOf(lane);
      LaneBytesOfLane(lane);
      assert lane[i % 8] == block[i];
    }
  }

  /** The sponge on an already padded message, truncated to 256 bits. */
  function Sponge256(padded: seq<bv8>): (digest: seq<bv8>)
    requires |padded| % RATE == 0
    ensures |digest| == 32
  {
    StateBytes(Absorb(KeccakF, EmptyState(), padded))[..32]
  }
}
