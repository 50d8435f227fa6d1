/**
 * 32-bit words as the hashers use them: `u32` rotations and shifts whose
 * amount is only known at run time.
 *
 * Rust's `rotate_left(n)` rotates by `n mod 32`; `x << n` and `x >> n`
 * (for `n < 32`) shift by `n` bit positions. Both are written here as `n`
 * single-position steps, so that every fact about them is proved by
 * induction on `n` from facts about one fixed-amount step.
 */
module Bits {

  /** `x` rotated left by `a` positions, one position at a time. */
  function RotlRec(x: bv32, a: nat): bv32
    decreases a
  {
    if a == 0 then x else RotlRec(x, a - 1).RotateLeft(1)
  }

  /** Rust's `u32::rotate_left(n)`: the amount is taken modulo 32. */
  function Rotl(x: bv32, n: int): bv32
  {
    RotlRec(x, n % 32)
  }

  /** Rust's `u32::rotate_right(n)`: a left rotation by `-n`. */
  function Rotr(x: bv32, n: int): bv32
  {
    Rotl(x, -n)
  }

  /** Rust's `x << n` for `n < 32`, as `n` one-position shifts. */
  function Shl(x: bv32, n: nat): bv32
    decreases n
  {
    if n == 0 then x else Shl(x, n - 1) << 1
  }

  /** Rust's `x >> n` for `n < 32`, as `n` one-position shifts. */
  function Shr(x: bv32, n: nat): bv32
    decreases n
  {
    if n == 0 then x else Shr(x, n - 1) >> 1
  }

  /** The mask of the low `2 * j` bits: `j` two-bit symbols. */
  function LowMask(j: nat): bv32
    decreases j
  {
    if j == 0 then 0 else (LowMask(j - 1) << 2) | 3
  }

  /** `u32::wrapping_add`. */
  function WrappingAdd(x: bv32, y: bv32): bv32
  {
    x + y
  }

  lemma WrappingAddComm(x: bv32, y: bv32)
    ensures WrappingAdd(x, y) == WrappingAdd(y, x)
  {
  }

  /** `x` holds at most `j` two-bit symbols: no bit above the low `2 * j` is set. */
  predicate FitsSyms(x: bv32, j: nat)
  {
    x & LowMask(j) == x
  }

  // ---------------------------------------------------------------------------
  // Rotation

  lemma RotlRecUnfold(x: bv32, n: nat)
    ensures RotlRec(x, n + 1) == RotlRec(x, n).RotateLeft(1)
  {
  }

  lemma {:induction false} RotlRecAdd(x: bv32, a: nat, b: nat)
    ensures RotlRec(RotlRec(x, a), b) == RotlRec(x, a + b)
    decreases b
  {
    if b > 0 {
      RotlRecAdd(x, a, b - 1);
    }
  }

  lemma {:induction false} RotlRecXor(x: bv32, y: bv32, a: nat)
    ensures RotlRec(x ^ y, a) == RotlRec(x, a) ^ RotlRec(y, a)
    decreases a
  {
    if a > 0 {
      RotlRecXor(x, y, a - 1);
    }
  }

  lemma RotlRec2(x: bv32)
    ensures RotlRec(x, 2) == x.RotateLeft(1).RotateLeft(1)
  {
    RotlRecUnfold(x, 0);
    RotlRecUnfold(x, 1);
  }

  lemma FourSteps(x: bv32)
    ensures x.RotateLeft(1).RotateLeft(1).RotateLeft(1).RotateLeft(1) == x.RotateLeft(4)
  {
  }

  lemma RotlRec4(x: bv32)
    ensures RotlRec(x, 4) == x.RotateLeft(4)
  {
    FourSteps(x);
    RotlRec2(x);
    RotlRec2(RotlRec(x, 2));
    RotlRecAdd(x, 2, 2);
  }

  lemma Doubling(y: bv32)
    ensures y.RotateLeft(4).RotateLeft(4) == y.RotateLeft(8)
    ensures y.RotateLeft(8).RotateLeft(8) == y.RotateLeft(16)
    ensures y.RotateLeft(16).RotateLeft(16) == y
  {
  }

  lemma RotlRec8(x: bv32)
    ensures RotlRec(x, 8) == x.RotateLeft(8)
  {
    RotlRec4(x);
    RotlRec4(RotlRec(x, 4));
    RotlRecAdd(x, 4, 4);
    Doubling(x);
  }

  lemma RotlRec16(x: bv32)
    ensures RotlRec(x, 16) == x.RotateLeft(16)
  {
    RotlRec8(x);
    RotlRec8(RotlRec(x, 8));
    RotlRecAdd(x, 8, 8);
    Doubling(x);
  }

  /** A full turn changes nothing. */
  lemma RotlRec32(x: bv32)
    ensures RotlRec(x, 32) == x
  {
    RotlRec16(x);
    RotlRec16(RotlRec(x, 16));
    RotlRecAdd(x, 16, 16);
    Doubling(x);
  }

  /** A rotation by a multiple of 32 is the identity. */
  lemma RotlFullTurn(x: bv32, n: int)
    requires n % 32 == 0
    ensures Rotl(x, n) == x
  {
  }

  /** Rotation distributes over exclusive or. */
  lemma RotlXor(x: bv32, y: bv32, n: int)
    ensures Rotl(x ^ y, n) == Rotl(x, n) ^ Rotl(y, n)
  {
    var a := n % 32;
    RotlRecXor(x, y, a);
    assert Rotl(x ^ y, n) == RotlRec(x ^ y, a);
    assert Rotl(x, n) == RotlRec(x, a);
    assert Rotl(y, n) == RotlRec(y, a);
  }

  lemma RotlOfZero(n: int)
    ensures Rotl(0, n) == 0
  {
    RotlXor(0, 0, n);
  }

  /** Rotating by `a` and then by `b` is rotating by `a + b`, for any signs. */
  lemma RotlAdd(x: bv32, a: int, b: int)
    ensures Rotl(Rotl(x, a), b) == Rotl(x, a + b)
  {
    ModSum(a, b);
    RotlRecSum(x, a % 32, b % 32, (a + b) % 32);
  }

  lemma ModSum(a: int, b: int)
    ensures (a + b) % 32 == (a % 32 + b % 32) % 32
  {
    assert a + b == 32 * (a / 32 + b / 32) + (a % 32 + b % 32);
  }

  /** Two rotations by reduced amounts compose to one by their sum, reduced. */
  lemma RotlRecSum(x: bv32, p: nat, q: nat, r: nat)
    requires p < 32 && q < 32 && r == (p + q) % 32
    ensures RotlRec(RotlRec(x, p), q) == RotlRec(x, r)
  {
    RotlRecAdd(x, p, q);
    ModWrap(p, q, r);
    if p + q >= 32 {
      RotlRecAdd(x, 32, r);
      RotlRec32(x);
    }
  }

  lemma ModWrap(p: nat, q: nat, r: nat)
    requires p < 32 && q < 32 && r == (p + q) % 32
    ensures if p + q >= 32 then p + q == 32 + r else p + q == r
  {
  }

  lemma RotlRotr(x: bv32, n: int)
    ensures Rotr(Rotl(x, n), n) == x
  {
    RotlAdd(x, n, -n);
  }

  lemma ThreeSteps(y: bv32)
    ensures y.RotateLeft(4).RotateLeft(1).RotateLeft(1).RotateLeft(1) == (y << 7) | (y >> 25)
  {
  }

  /** The shift-or form of a left rotation by seven. */
  lemma Rotl7ShiftOr(x: bv32)
    ensures Rotl(x, 7) == (x << 7) | (x >> 25)
  {
    var y := RotlRec(x, 4);
    RotlRec4(x);
    RotlRecUnfold(y, 0);
    RotlRecUnfold(y, 1);
    RotlRecUnfold(y, 2);
    RotlRecAdd(x, 4, 3);
    ThreeSteps(x);
  }

  lemma ShiftOrInverse(x: bv32)
    ensures var y := (x >> 7) | (x << 25); (y << 7) | (y >> 25) == x
  {
  }

  /** The shift-or form of a right rotation by seven. */
  lemma Rotr7ShiftOr(x: bv32)
    ensures Rotr(x, 7) == (x >> 7) | (x << 25)
  {
    var y := (x >> 7) | (x << 25);
    ShiftOrInverse(x);
    Rotl7ShiftOr(y);
    RotlRotr(y, 7);
  }

  // ---------------------------------------------------------------------------
  // Shifts and symbol masks

  lemma {:induction false} ShlAdd(x: bv32, a: nat, b: nat)
    ensures Shl(Shl(x, a), b) == Shl(x, a + b)
    decreases b
  {
    if b > 0 {
      ShlAdd(x, a, b - 1);
    }
  }

  lemma ShlUnfold(x: bv32, n: nat)
    ensures Shl(x, n + 1) == Shl(x, n) << 1
  {
  }

  lemma ShrUnfold(x: bv32, n: nat)
    ensures Shr(x, n + 1) == Shr(x, n) >> 1
  {
  }

  lemma TwoLeft(x: bv32)
    ensures (x << 1) << 1 == x << 2
  {
  }

  lemma TwoRight(x: bv32)
    ensures (x >> 1) >> 1 == x >> 2
  {
  }

  /** Shifting by two more positions is one more two-bit shift. */
  lemma ShlStep(x: bv32, n: nat)
    ensures Shl(x, n + 2) == Shl(x, n) << 2
  {
    ShlUnfold(x, n);
    ShlUnfold(x, n + 1);
    TwoLeft(Shl(x, n));
  }

  lemma MaskStep(y: bv32)
    ensures (y << 2) - 1 == ((y - 1) << 2) | 3
  {
  }

  /** `AntiLexHasher::new`'s `(1 << (2 * j)) - 1` is the mask of `j` symbols. */
  lemma {:induction false} ShlMask(j: nat)
    ensures Shl(1, 2 * j) - 1 == LowMask(j)
    decreases j
  {
    if j > 0 {
      ShlMask(j - 1);
      ShlStep(1, 2 * (j - 1));
      LowMaskUnfold(j - 1);
      MaskStep(Shl(1, 2 * (j - 1)));
    }
  }

  lemma LowMaskUnfold(j: nat)
    ensures LowMask(j + 1) == (LowMask(j) << 2) | 3
  {
  }

  lemma LowMask15()
    ensures LowMask(15) == 0x3FFF_FFFF
  {
    assert LowMask(0) == 0;
    LowMaskUnfold(0); LowMaskUnfold(1); LowMaskUnfold(2); LowMaskUnfold(3);
    LowMaskUnfold(4); LowMaskUnfold(5); LowMaskUnfold(6); LowMaskUnfold(7);
    LowMaskUnfold(8); LowMaskUnfold(9); LowMaskUnfold(10); LowMaskUnfold(11);
    LowMaskUnfold(12); LowMaskUnfold(13); LowMaskUnfold(14);
  }

  lemma LowMask16()
    ensures LowMask(16) == 0xFFFF_FFFF
  {
    LowMask15();
    LowMaskUnfold(15);
  }

  lemma SubMask(x: bv32, a: bv32, b: bv32)
    requires x & a == x && a & b == a
    ensures x & b == x
  {
  }

  /** A low mask contains every narrower one. */
  lemma {:induction false} LowMaskMono(j: nat)
    ensures LowMask(j) & LowMask(j + 1) == LowMask(j)
    decreases j
  {
    if j > 0 {
      LowMaskMono(j - 1);
      LowMaskUnfold(j - 1);
      LowMaskUnfold(j);
      MaskShiftAnd(LowMask(j - 1), LowMask(j));
    }
  }

  lemma MaskShiftAnd(x: bv32, m: bv32)
    requires x & m == x
    ensures ((x << 2) | 3) & ((m << 2) | 3) == (x << 2) | 3
  {
  }

  lemma FitsStep(x: bv32, j: nat)
    requires FitsSyms(x, j)
    ensures FitsSyms(x, j + 1)
  {
    LowMaskMono(j);
    SubMask(x, LowMask(j), LowMask(j + 1));
  }

  lemma {:induction false} FitsWider(x: bv32, j: nat, j': nat)
    requires FitsSyms(x, j) && j <= j'
    ensures FitsSyms(x, j')
    decreases j' - j
  {
    if j < j' {
      FitsStep(x, j);
      FitsWider(x, j + 1, j');
    }
  }

  /** `AntiLexHasher::new`'s `3 << (2 * (j - 1))`, the top symbol of `j`, lies inside the mask of `j`. */
  lemma {:induction false} TopSymbolInMask(j: nat)
    requires j >= 1
    ensures FitsSyms(Shl(3, 2 * (j - 1)), j)
    decreases j
  {
    if j > 1 {
      TopSymbolInMask(j - 1);
      ShlStep(3, 2 * (j - 2));
      LowMaskUnfold(j - 1);
      ShiftInMask(Shl(3, 2 * (j - 2)), LowMask(j - 1));
    }
  }

  lemma ShiftInMask(x: bv32, m: bv32)
    requires x & m == x
    ensures (x << 2) & ((m << 2) | 3) == x << 2
  {
  }

  /** Commuting a XOR, stated on named words so that the solver need not look inside them. */
  lemma XorSwap(l: bv32, p: bv32, q: bv32, r: bv32)
    ensures (l == p ^ q && p == r) ==> l == q ^ r
  {
  }
}
