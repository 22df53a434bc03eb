/** Rotation of a 64-bit lane, and where it takes each bit. The shifts are kept behind names so that
    no proof handles more than one of them as a vector. */
module LaneBits {

  function Shl(x: bv64, n: bv64): bv64
    requires n <= 64
  {
    x << n
  }

  function Shr(x: bv64, n: bv64): bv64
    requires n <= 64
  {
    x >> n
  }

  function Or(a: bv64, b: bv64): bv64 { a | b }

  function Rotl64(x: bv64, n: bv64): bv64
    requires n < 64
  {
    (x << n) | (x >> (64 - n))
  }

  function BitOf(x: bv64, z: bv64): bv64
    requires z < 64
  {
    Shr(x, z) & 1
  }

  lemma RotationIsOr(x: bv64, n: bv64)
    requires n < 64
    ensures Rotl64(x, n) == Or(Shl(x, n), Shr(x, 64 - n))
  {}

  // ----- one place at a time -----

  lemma LeftOnceLowest(x: bv64, n: bv64)
    requires n < 8
    ensures Shl(x, n + 1) == Shl(Shl(x, n), 1)
  {}

  lemma LeftOnceLow(x: bv64, n: bv64)
    requires 8 <= n < 16
    ensures Shl(x, n + 1) == Shl(Shl(x, n), 1)
  {}

  lemma LeftOnceMiddle(x: bv64, n: bv64)
    requires 16 <= n < 32
    ensures Shl(x, n + 1) == Shl(Shl(x, n), 1)
  {}

  lemma LeftOnceHigh(x: bv64, n: bv64)
    requires 32 <= n < 64
    ensures Shl(x, n + 1) == Shl(Shl(x, n), 1)
  {}

  lemma LeftOnce(x: bv64, n: bv64)
    requires n < 64
    ensures Shl(x, n + 1) == Shl(Shl(x, n), 1)
  {
    hide Shl;
    if n < 8 {
      LeftOnceLowest(x, n);
    } else if n < 16 {
      LeftOnceLow(x, n);
    } else if n < 32 {
      LeftOnceMiddle(x, n);
    } else {
      LeftOnceHigh(x, n);
    }
  }

  lemma RightOnceLowest(x: bv64, n: bv64)
    requires n < 8
    ensures Shr(x, n + 1) == Shr(Shr(x, n), 1)
  {}

  lemma RightOnceLow(x: bv64, n: bv64)
    requires 8 <= n < 16
    ensures Shr(x, n + 1) == Shr(Shr(x, n), 1)
  {}

  lemma RightOnceMiddle(x: bv64, n: bv64)
    requires 16 <= n < 32
    ensures Shr(x, n + 1) == Shr(Shr(x, n), 1)
  {}

  lemma RightOnceHigh(x: bv64, n: bv64)
    requires 32 <= n < 64
    ensures Shr(x, n + 1) == Shr(Shr(x, n), 1)
  {}

  lemma RightOnce(x: bv64, n: bv64)
    requires n < 64
    ensures Shr(x, n + 1) == Shr(Shr(x, n), 1)
  {
    hide Shr;
    if n < 8 {
      RightOnceLowest(x, n);
    } else if n < 16 {
      RightOnceLow(x, n);
    } else if n < 32 {
      RightOnceMiddle(x, n);
    } else {
      RightOnceHigh(x, n);
    }
  }

  lemma BitOneUp(x: bv64, z: bv64)
    requires z < 63
    ensures BitOf(Shl(x, 1), z + 1) == BitOf(x, z)
  {}

  lemma BitOneDown(x: bv64, z: bv64)
    requires z < 63
    ensures BitOf(Shr(x, 1), z) == BitOf(x, z + 1)
  {}

  lemma ShiftByNone(x: bv64)
    ensures Shl(x, 0) == x && Shr(x, 0) == x
  {}

  // ----- any number of places -----

  lemma {:induction false} LeftShiftMoves(x: bv64, n: bv64, k: bv64)
    requires n < 64 && k < 64 && n + k < 64
    ensures BitOf(Shl(x, n), n + k) == BitOf(x, k)
    decreases n
  {
    hide BitOf, Shl;
    if n == 0 {
      ShiftByNone(x);
    } else {
      LeftOnce(x, n - 1);
      BitOneUp(Shl(x, n - 1), n - 1 + k);
      LeftShiftMoves(x, n - 1, k);
    }
  }

  lemma {:induction false} RightShiftMoves(x: bv64, m: bv64, z: bv64)
    requires m < 64 && z < 64 && m + z < 64
    ensures BitOf(Shr(x, m), z) == BitOf(x, m + z)
    decreases m
  {
    hide BitOf, Shr;
    if m == 0 {
      ShiftByNone(x);
    } else {
      RightOnce(x, m - 1);
      BitOneDown(Shr(x, m - 1), z);
      RightShiftMoves(x, m - 1, z + 1);
      assert m - 1 + (z + 1) == m + z;
    }
  }

  lemma OrOnce(a: bv64, b: bv64)
    ensures Shr(Or(a, b), 1) == Or(Shr(a, 1), Shr(b, 1))
  {}

  lemma {:induction false} OrShifts(a: bv64, b: bv64, z: bv64)
    requires z < 64
    ensures Shr(Or(a, b), z) == Or(Shr(a, z), Shr(b, z))
    decreases z
  {
    hide Shr, Or;
    if z == 0 {
      ShiftByNone(a);
      ShiftByNone(b);
      ShiftByNone(Or(a, b));
    } else {
      OrShifts(a, b, z - 1);
      OrOnce(Shr(a, z - 1), Shr(b, z - 1));
      RightOnce(a, z - 1);
      RightOnce(b, z - 1);
      RightOnce(Or(a, b), z - 1);
    }
  }

  lemma OrLowest(a: bv64, b: bv64)
    ensures a & 1 == 0 ==> Or(a, b) & 1 == b & 1
    ensures b & 1 == 0 ==> Or(a, b) & 1 == a & 1
  {}

  lemma OrWithClear(a: bv64, b: bv64, z: bv64)
    requires z < 64
    ensures BitOf(a, z) == 0 ==> BitOf(Or(a, b), z) == BitOf(b, z)
    ensures BitOf(b, z) == 0 ==> BitOf(Or(a, b), z) == BitOf(a, z)
  {
    hide Shr, Or;
    OrShifts(a, b, z);
    OrLowest(Shr(a, z), Shr(b, z));
  }

  lemma LeftShiftClears(x: bv64, n: bv64, z: bv64)
    requires z < n < 64
    ensures BitOf(Shl(x, n), z) == 0
  {}

  lemma RightShiftClears(x: bv64, n: bv64, z: bv64)
    requires n <= z < 64
    ensures BitOf(Shr(x, 64 - n), z) == 0
  {}

  lemma UpperBits(x: bv64, n: bv64, k: bv64)
    requires n < 64 && k < 64 && n + k < 64
    ensures BitOf(Rotl64(x, n), n + k) == BitOf(x, k)
  {
    hide BitOf, Rotl64, Shl, Shr, Or;
    assert n <= n + k < 64;
    RightShiftClears(x, n, n + k);
    LeftShiftMoves(x, n, k);
    OrWithClear(Shl(x, n), Shr(x, 64 - n), n + k);
    RotationIsOr(x, n);
  }

  lemma LowerBits(x: bv64, n: bv64, z: bv64)
    requires z < n < 64
    ensures BitOf(Rotl64(x, n), z) == BitOf(x, 64 - n + z)
  {
    hide BitOf, Rotl64, Shl, Shr, Or;
    LeftShiftClears(x, n, z);
    RightShiftMoves(x, 64 - n, z);
    OrWithClear(Shl(x, n), Shr(x, 64 - n), z);
    RotationIsOr(x, n);
  }

  lemma NoWrap(n: bv64, z: bv64)
    requires n <= z < 64
    ensures (z - n) & 63 == z - n && n + (z - n) == z && z - n < 64
  {}

  lemma Wraps(n: bv64, z: bv64)
    requires z < n < 64
    ensures (z - n) & 63 == 64 - n + z
  {}

  lemma UpperBitsWrapped(x: bv64, n: bv64, z: bv64, k: bv64)
    requires n <= z < 64 && k == (z - n) & 63
    ensures BitOf(Rotl64(x, n), z) == BitOf(x, k)
  {
    hide BitOf, Rotl64;
    NoWrap(n, z);
    UpperBits(x, n, z - n);
  }

  /** Bit z of the rotated lane is bit z - n (mod 64): the index shift of theta and rho. */
  lemma RotationShiftsBits(x: bv64, n: bv64, z: bv64)
    requires n < 64 && z < 64
    ensures BitOf(Rotl64(x, n), z) == BitOf(x, (z - n) & 63)
  {
    hide BitOf, Rotl64;
    if z >= n {
      UpperBitsWrapped(x, n, z, (z - n) & 63);
    } else {
      Wraps(n, z);
      LowerBits(x, n, z);
    }
  }
}
