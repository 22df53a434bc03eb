/** The step mappings of the reference on single bits, as FIPS 202 writes them: bit z of lane (x, y)
    is A[x, y, z]. */
module FipsBits {
  import opened LaneBits
  import opened Fips202

  /** A[x, y, z], 0 or 1. */
  function Bit(a: Lanes, x: nat, y: nat, z: bv64): bv64
    requires x < 5 && y < 5 && z < 64
  {
    BitOf(a[x + 5 * y], z)
  }

  // Named, so that no proof but the smallest handles them as vectors.

  function Xor(a: bv64, b: bv64): bv64 { a ^ b }

  function XorThree(a: bv64, b: bv64, c: bv64): bv64 { a ^ (b ^ c) }

  /** The second argument counts where it is 0. */
  function XorAndNot(a: bv64, b: bv64, c: bv64): bv64 { a ^ (!b & c) }

  function Lowest(x: bv64): bv64 { x & 1 }

  // ----- bitwise operations act on every bit alone -----

  lemma ShiftNothing(a: bv64)
    ensures Shr(a, 0) == a
  {}

  lemma BitIsLowest(x: bv64, z: bv64)
    requires z < 64
    ensures BitOf(x, z) == Lowest(Shr(x, z))
  {
    hide Shr;
  }

  lemma XorShifted(a: bv64, b: bv64)
    ensures Shr(Xor(a, b), 1) == Xor(Shr(a, 1), Shr(b, 1))
  {}

  lemma XorLowest(a: bv64, b: bv64)
    ensures Lowest(Xor(a, b)) == Xor(Lowest(a), Lowest(b))
  {}

  lemma {:induction false} XorMoved(a: bv64, b: bv64, n: bv64)
    requires n < 64
    ensures Shr(Xor(a, b), n) == Xor(Shr(a, n), Shr(b, n))
  {
    hide Shr, Xor;
    if n == 0 {
      ShiftNothing(a);
      ShiftNothing(b);
      ShiftNothing(Xor(a, b));
    } else {
      XorMoved(a, b, n - 1);
      RightOnce(a, n - 1);
      RightOnce(b, n - 1);
      RightOnce(Xor(a, b), n - 1);
      XorShifted(Shr(a, n - 1), Shr(b, n - 1));
    }
  }

  lemma XorOnBits(a: bv64, b: bv64, z: bv64)
    requires z < 64
    ensures BitOf(Xor(a, b), z) == Xor(BitOf(a, z), BitOf(b, z))
  {
    hide BitOf, Xor, Shr, Lowest;
    BitIsLowest(a, z);
    BitIsLowest(b, z);
    BitIsLowest(Xor(a, b), z);
    XorMoved(a, b, z);
    XorLowest(Shr(a, z), Shr(b, z));
  }

  lemma XorThreeShifted(a: bv64, b: bv64, c: bv64)
    ensures Shr(XorThree(a, b, c), 1) == XorThree(Shr(a, 1), Shr(b, 1), Shr(c, 1))
  {}

  lemma XorThreeLowest(a: bv64, b: bv64, c: bv64)
    ensures Lowest(XorThree(a, b, c)) == XorThree(Lowest(a), Lowest(b), Lowest(c))
  {}

  lemma {:induction false} XorThreeMoved(a: bv64, b: bv64, c: bv64, n: bv64)
    requires n < 64
    ensures Shr(XorThree(a, b, c), n) == XorThree(Shr(a, n), Shr(b, n), Shr(c, n))
  {
    hide Shr, XorThree;
    if n == 0 {
      ShiftNothing(a);
      ShiftNothing(b);
      ShiftNothing(c);
      ShiftNothing(XorThree(a, b, c));
    } else {
      XorThreeMoved(a, b, c, n - 1);
      RightOnce(a, n - 1);
      RightOnce(b, n - 1);
      RightOnce(c, n - 1);
      RightOnce(XorThree(a, b, c), n - 1);
      XorThreeShifted(Shr(a, n - 1), Shr(b, n - 1), Shr(c, n - 1));
    }
  }

  lemma XorThreeOnBits(a: bv64, b: bv64, c: bv64, z: bv64)
    requires z < 64
    ensures BitOf(XorThree(a, b, c), z) == XorThree(BitOf(a, z), BitOf(b, z), BitOf(c, z))
  {
    hide BitOf, XorThree, Shr, Lowest;
    BitIsLowest(a, z);
    BitIsLowest(b, z);
    BitIsLowest(c, z);
    BitIsLowest(XorThree(a, b, c), z);
    XorThreeMoved(a, b, c, z);
    XorThreeLowest(Shr(a, z), Shr(b, z), Shr(c, z));
  }

  function OneMinus(b: bv64): bv64 { b ^ 1 }

  function Both(b: bv64, c: bv64): bv64 { b & c }

  lemma XorAndNotShifted(a: bv64, b: bv64, c: bv64)
    ensures Shr(XorAndNot(a, b, c), 1) == XorAndNot(Shr(a, 1), Shr(b, 1), Shr(c, 1))
  {}

  lemma XorAndNotLowest(a: bv64, b: bv64, c: bv64)
    ensures Lowest(XorAndNot(a, b, c)) == Xor(Lowest(a), Both(OneMinus(Lowest(b)), Lowest(c)))
  {}

  lemma {:induction false} XorAndNotMoved(a: bv64, b: bv64, c: bv64, n: bv64)
    requires n < 64
    ensures Shr(XorAndNot(a, b, c), n) == XorAndNot(Shr(a, n), Shr(b, n), Shr(c, n))
  {
    hide Shr, XorAndNot;
    if n == 0 {
      ShiftNothing(a);
      ShiftNothing(b);
      ShiftNothing(c);
      ShiftNothing(XorAndNot(a, b, c));
    } else {
      XorAndNotMoved(a, b, c, n - 1);
      RightOnce(a, n - 1);
      RightOnce(b, n - 1);
      RightOnce(c, n - 1);
      RightOnce(XorAndNot(a, b, c), n - 1);
      XorAndNotShifted(Shr(a, n - 1), Shr(b, n - 1), Shr(c, n - 1));
    }
  }

  lemma XorAndNotOnBits(a: bv64, b: bv64, c: bv64, z: bv64)
    requires z < 64
    ensures BitOf(XorAndNot(a, b, c), z) == Xor(BitOf(a, z), Both(OneMinus(BitOf(b, z)), BitOf(c, z)))
  {
    hide BitOf, XorAndNot, Shr, Lowest, OneMinus, Both, Xor;
    BitIsLowest(a, z);
    BitIsLowest(b, z);
    BitIsLowest(c, z);
    BitIsLowest(XorAndNot(a, b, c), z);
    XorAndNotMoved(a, b, c, z);
    XorAndNotLowest(Shr(a, z), Shr(b, z), Shr(c, z));
  }

  // ----- theta (section 3.2.1) -----

  lemma ThetaIsXor(a: Lanes, x: nat, y: nat)
    requires x < 5 && y < 5
    ensures Theta(a)[x + 5 * y] ==
            XorThree(a[x + 5 * y], ColumnParity(a, (x + 4) % 5), Rotl64(ColumnParity(a, (x + 1) % 5), 1))
  {
    hide ColumnParity, Rotl64;
    assert (x + 5 * y) % 5 == x;
  }

  /** A[x, y, z] with the parities of the columns (x - 1, z) and (x + 1, z - 1). */
  lemma ThetaOnBits(a: Lanes, x: nat, y: nat, z: bv64)
    requires x < 5 && y < 5 && z < 64
    ensures Bit(Theta(a), x, y, z) ==
            XorThree(Bit(a, x, y, z), BitOf(ColumnParity(a, (x + 4) % 5), z),
                     BitOf(ColumnParity(a, (x + 1) % 5), (z - 1) & 63))
  {
    hide BitOf, Rotl64, ColumnParity, XorThree, Theta;
    var left, right := ColumnParity(a, (x + 4) % 5), ColumnParity(a, (x + 1) % 5);
    ThetaIsXor(a, x, y);
    XorThreeOnBits(a[x + 5 * y], left, Rotl64(right, 1), z);
    RotationShiftsBits(right, 1, z);
  }

  // ----- rho, pi, chi and iota -----

  /** Section 3.2.2: every lane is rotated by its offset. */
  lemma RhoOnBits(a: Lanes, x: nat, y: nat, z: bv64)
    requires x < 5 && y < 5 && z < 64
    ensures Bit(Rho(a), x, y, z) == Bit(a, x, y, (z - Offset(x, y)) & 63)
  {
    hide BitOf, Rotl64, Offset;
    assert Rho(a)[x + 5 * y] == Rotl64(a[x + 5 * y], Offset(x, y));
    RotationShiftsBits(a[x + 5 * y], Offset(x, y), z);
  }

  /** Section 3.2.3. */
  lemma PiOnBits(a: Lanes, x: nat, y: nat, z: bv64)
    requires x < 5 && y < 5 && z < 64
    ensures Bit(Pi(a), x, y, z) == Bit(a, (x + 3 * y) % 5, x, z)
  {
    hide BitOf;
    assert (x + 5 * y) % 5 == x && (x + 5 * y) / 5 == y;
  }

  lemma ChiAt(a: Lanes, x: nat, y: nat)
    requires x < 5 && y < 5
    ensures Chi(a)[x + 5 * y] == ChiLane(a, x, y)
  {
    hide ChiLane;
    assert (x + 5 * y) % 5 == x && (x + 5 * y) / 5 == y;
  }

  lemma ChiLaneIsXor(a: Lanes, x: nat, y: nat)
    requires x < 5 && y < 5
    ensures ChiLane(a, x, y) == XorAndNot(At(a, x, y), At(a, (x + 1) % 5, y), At(a, (x + 2) % 5, y))
  {
    hide At;
  }

  /** Section 3.2.4: the only step that is not linear. */
  lemma ChiOnBits(a: Lanes, x: nat, y: nat, z: bv64)
    requires x < 5 && y < 5 && z < 64
    ensures Bit(Chi(a), x, y, z) ==
            Xor(Bit(a, x, y, z), Both(OneMinus(Bit(a, (x + 1) % 5, y, z)), Bit(a, (x + 2) % 5, y, z)))
  {
    hide BitOf, Xor, XorAndNot, Both, OneMinus, Chi, ChiLane;
    ChiAt(a, x, y);
    ChiLaneIsXor(a, x, y);
    XorAndNotOnBits(a[x + 5 * y], a[(x + 1) % 5 + 5 * y], a[(x + 2) % 5 + 5 * y], z);
  }

  lemma IotaIsXor(a: Lanes, rc: bv64, i: nat)
    requires i < 25
    ensures Iota(a, rc)[i] == if i == 0 then Xor(a[0], rc) else a[i]
  {}

  /** Section 3.2.5: the round constant goes to the first lane only. */
  lemma IotaOnBits(a: Lanes, rc: bv64, x: nat, y: nat, z: bv64)
    requires x < 5 && y < 5 && z < 64
    ensures Bit(Iota(a, rc), x, y, z) ==
            if x == 0 && y == 0 then Xor(Bit(a, 0, 0, z), BitOf(rc, z)) else Bit(a, x, y, z)
  {
    hide BitOf, Xor, Iota;
    IotaIsXor(a, rc, x + 5 * y);
    XorOnBits(a[0], rc, z);
  }
}
