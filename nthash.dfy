/**
 * The character hashers of `src/nthash.rs` and the rolling hash built on
 * them.
 *
 * A character hasher gives each symbol `b` four 32-bit values: `f(b)`, its
 * complement's value `c(b)`, and both pre-rotated by the rotation a symbol
 * accumulates while it crosses a k-mer (`fRot`, `cRot`). The forward hash
 * of a sequence rotates left by `R = 7` and XORs in `f` of each new symbol;
 * the reverse-complement part rotates right and XORs in `cRot`. The value
 * of a k-mer is the forward register, plus (wrapping) the
 * reverse-complement register when the hasher is canonical.
 */
module NtHash {
  import opened Bits
  import opened Symbols

  /** The rotation per symbol. */
  const R: nat := 7

  /** The original 64-bit ntHash seeds. */
  const Seeds64: seq<int> := [
    0x3c8b_fbb3_95c6_0474, 0x3193_c185_62a0_2b4c, 0x2032_3ed0_8257_2324, 0x2955_49f5_4be2_4456
  ]

  /** The seeds as the hasher uses them: each truncated to its low 32 bits. */
  const HashesF: seq<bv32> := [0x95c6_0474, 0x62a0_2b4c, 0x8257_2324, 0x4be2_4456]

  /** The 64-bit multiplicative mixing constant. */
  const Mixing64: int := 0x517c_c1b7_2722_0a95

  /** The mixing constant of `MulHasher`, truncated to its low 32 bits. */
  const MixingC: bv32 := 0x2722_0a95

  /** The 32-bit constants are the truncations of the 64-bit ones. */
  lemma ConstantsTruncated()
    ensures forall i :: 0 <= i < 4 ==> HashesF[i] as int == Seeds64[i] % 0x1_0000_0000
    ensures MixingC as int == Mixing64 % 0x1_0000_0000
  {
  }

  /**
   * The `CharHasher` interface: whether the hasher is canonical, which
   * symbols it takes, and its scalar and eight-lane lookups. The rolling
   * hash below is written against this interface only, as the generic
   * `KmerHasher` implementation is.
   */
  datatype CharHasher = CharHasher(
    canonical: bool,
    basesOnly: bool,
    f: Sym -> bv32, c: Sym -> bv32, fRot: Sym -> bv32, cRot: Sym -> bv32,
    simdF: seq<bv32> -> seq<bv32>, simdC: seq<bv32> -> seq<bv32>,
    simdFRot: seq<bv32> -> seq<bv32>, simdCRot: seq<bv32> -> seq<bv32>)

  predicate Accepts(h: CharHasher, b: Sym)
  {
    h.basesOnly ==> b < 4
  }

  predicate AcceptsAll(h: CharHasher, s: seq<Sym>)
  {
    forall i :: 0 <= i < |s| ==> Accepts(h, s[i])
  }

  /**
   * The lookups fit the rolling hash of k-mers of length `k`: `c` is `f` of
   * the complement, and the pre-rotated values are rotated by the
   * `R * (k - 1)` positions a symbol accumulates while it crosses the window.
   */
  ghost predicate ValidFor(h: CharHasher, k: nat)
  {
    k >= 1 &&
    forall b: Sym {:trigger h.c(b)} {:trigger h.fRot(b)} {:trigger h.cRot(b)} | Accepts(h, b) ::
      Accepts(h, Comp(b)) &&
      h.c(b) == h.f(Comp(b)) &&
      h.fRot(b) == Rotl(h.f(b), R * (k - 1)) &&
      h.cRot(b) == Rotl(h.c(b), R * (k - 1))
  }

  /** Eight lanes, each holding a symbol the hasher takes. */
  predicate LanesAccepted(h: CharHasher, v: seq<bv32>)
  {
    |v| == 8 && forall l :: 0 <= l < 8 ==> v[l] < 256 && (h.basesOnly ==> v[l] < 4)
  }

  /** Lane `l` of every SIMD lookup on `v` is the scalar lookup of that lane's symbol. */
  predicate LaneAgrees(h: CharHasher, v: seq<bv32>, l: int)
    requires 0 <= l < |v| && v[l] < 256
  {
    |h.simdF(v)| == |h.simdC(v)| == |h.simdFRot(v)| == |h.simdCRot(v)| == |v| &&
    h.simdF(v)[l] == h.f(v[l] as Sym) && h.simdC(v)[l] == h.c(v[l] as Sym) &&
    h.simdFRot(v)[l] == h.fRot(v[l] as Sym) && h.simdCRot(v)[l] == h.cRot(v[l] as Sym)
  }

  /** Every SIMD lookup computes, in each lane, the scalar lookup of that lane's symbol. */
  ghost predicate SimdAgrees(h: CharHasher)
  {
    forall v: seq<bv32>, l: int | LanesAccepted(h, v) && 0 <= l < 8 :: LaneAgrees(h, v, l)
  }

  // ---------------------------------------------------------------------------
  // NtHasher

  /**
   * The `NtHasher` struct: four-entry tables for the scalar lookups,
   * eight-entry tables for the SIMD lookups, and the hash of `k - 1` zero
   * symbols in `fwInit` and `rcInit`.
   */
  datatype NtHasher = NtHasher(
    canonical: bool,
    f: seq<bv32>, c: seq<bv32>, fRot: seq<bv32>, cRot: seq<bv32>,
    simdF: seq<bv32>, simdC: seq<bv32>, simdFRot: seq<bv32>, simdCRot: seq<bv32>,
    fwInit: bv32, rcInit: bv32)

  /** Table entry `i`; the hasher only reads entries inside the table. */
  function Entry(t: seq<bv32>, i: int): bv32
  {
    if 0 <= i < |t| then t[i] else 0
  }

  /** `intrinsics::table_lookup`: lane `l` becomes entry `v[l]` of the table. */
  function TableLookup(t: seq<bv32>, v: seq<bv32>): seq<bv32>
  {
    seq(|v|, l requires 0 <= l < |v| => Entry(t, v[l] as int))
  }

  /** The `CharHasher` methods of an `NtHasher`: lookups in its tables. */
  function NtMethods(nt: NtHasher): CharHasher
  {
    CharHasher(nt.canonical, true,
      b => Entry(nt.f, b as int), b => Entry(nt.c, b as int),
      b => Entry(nt.fRot, b as int), b => Entry(nt.cRot, b as int),
      v => TableLookup(nt.simdF, v), v => TableLookup(nt.simdC, v),
      v => TableLookup(nt.simdFRot, v), v => TableLookup(nt.simdCRot, v))
  }

  /**
   * The tables of an `NtHasher` whose pre-rotated entries are rotated by
   * `rot`; the eight-entry SIMD tables hold the four scalar entries twice
   * (index pattern 0, 1, 2, 3, 0, 1, 2, 3).
   */
  function NtTables(canonical: bool, rot: int): (nt: NtHasher)
    ensures nt.canonical == canonical && nt.f == HashesF
    ensures |nt.c| == 4 && forall i :: 0 <= i < 4 ==> nt.c[i] == HashesF[Comp(i as Sym) as int]
    ensures |nt.fRot| == 4 && |nt.cRot| == 4
    ensures forall i :: 0 <= i < 4 ==> nt.fRot[i] == Rotl(nt.f[i], rot) && nt.cRot[i] == Rotl(nt.c[i], rot)
    ensures nt.simdF == nt.f + nt.f && nt.simdC == nt.c + nt.c
    ensures nt.simdFRot == nt.fRot + nt.fRot && nt.simdCRot == nt.cRot + nt.cRot
  {
    var f := HashesF;
    var c := [f[2], f[3], f[0], f[1]];
    assert forall i :: 0 <= i < 4 ==> c[i] == HashesF[Comp(i as Sym) as int] by {
      assert Comp(0) == 2 && Comp(1) == 3 && Comp(2) == 0 && Comp(3) == 1;
    }
    var fRot := seq(4, i requires 0 <= i < 4 => Rotl(f[i], rot));
    var cRot := seq(4, i requires 0 <= i < 4 => Rotl(c[i], rot));
    NtHasher(canonical, f, c, fRot, cRot, f + f, c + c, fRot + fRot, cRot + cRot, 0, 0)
  }

  lemma BaseCases(b: Sym)
    requires b < 4
    ensures b == 0 || b == 1 || b == 2 || b == 3
  {
  }

  /** The complement table is the forward table read at the complement. */
  lemma NtComplement(nt: NtHasher, rot: int, b: Sym)
    requires nt == NtTables(nt.canonical, rot) && b < 4
    ensures Comp(b) < 4
    ensures NtMethods(nt).c(b) == NtMethods(nt).f(Comp(b))
    ensures NtMethods(nt).fRot(b) == Rotl(NtMethods(nt).f(b), rot)
    ensures NtMethods(nt).cRot(b) == Rotl(NtMethods(nt).c(b), rot)
  {
    BaseCases(b);
  }

  /** With the rotation `R * (k - 1)` the tables fit k-mers of length `k`. */
  lemma NtTablesValidFor(nt: NtHasher, k: nat)
    requires k >= 1 && nt == NtTables(nt.canonical, R * (k - 1))
    ensures ValidFor(NtMethods(nt), k)
  {
    forall b: Sym | Accepts(NtMethods(nt), b)
      ensures Accepts(NtMethods(nt), Comp(b))
      ensures NtMethods(nt).c(b) == NtMethods(nt).f(Comp(b))
      ensures NtMethods(nt).fRot(b) == Rotl(NtMethods(nt).f(b), R * (k - 1))
      ensures NtMethods(nt).cRot(b) == Rotl(NtMethods(nt).c(b), R * (k - 1))
    {
      NtComplement(nt, R * (k - 1), b);
    }
  }

  /** The eight-entry tables answer every in-range lane as the four-entry ones do. */
  lemma NtSimdAgrees(nt: NtHasher, rot: int)
    requires nt == NtTables(nt.canonical, rot)
    ensures SimdAgrees(NtMethods(nt))
  {
    forall v: seq<bv32>, l: int | LanesAccepted(NtMethods(nt), v) && 0 <= l < 8
      ensures LaneAgrees(NtMethods(nt), v, l)
    {
      NtLaneAgrees(nt, rot, v, l);
    }
  }

  lemma NtLaneAgrees(nt: NtHasher, rot: int, v: seq<bv32>, l: int)
    requires nt == NtTables(nt.canonical, rot) && |v| == 8 && 0 <= l < 8 && v[l] < 4
    ensures LaneAgrees(NtMethods(nt), v, l)
  {
    assert (v[l] as Sym) as int == v[l] as int;
  }

  /**
   * `NtHasher::new` with the removal rotation a symbol accumulates over
   * `k - 1` steps, `R * (k - 1)`; `fwInit` and `rcInit` hash `k - 1` zeros.
   */
  method NtNew(canonical: bool, k: nat) returns (nt: NtHasher)
    requires k >= 1
    ensures nt.canonical == canonical
    ensures nt == NtTables(canonical, R * (k - 1)).(fwInit := nt.fwInit, rcInit := nt.rcInit)
    ensures ValidFor(NtMethods(nt), k) && SimdAgrees(NtMethods(nt))
    ensures nt.fwInit == Fw(NtMethods(nt), Zeros(k - 1))
    ensures nt.rcInit == Rc(NtMethods(nt), Zeros(k - 1))
  {
    nt := NtTables(canonical, R * (k - 1));
    NtTablesValidFor(nt, k);
    NtSimdAgrees(nt, R * (k - 1));
    var h := NtMethods(nt);
    var fwInit: bv32 := 0;
    var rcInit: bv32 := 0;
    PrimeStart(h);
    for i := 0 to k - 1
      invariant AcceptsAll(h, Zeros(i)) && fwInit == Fw(h, Zeros(i)) && rcInit == Rc(h, Zeros(i))
    {
      PrimeStep(h, i);
      fwInit := NextFw(h, fwInit, 0);
      rcInit := NextRc(h, rcInit, 0);
    }
    nt := nt.(fwInit := fwInit, rcInit := rcInit);
    assert NtMethods(nt) == h;
  }

  // ---------------------------------------------------------------------------
  // MulHasher

  /** The `MulHasher` struct: only the rotation count `(k - 1) mod 32`. */
  datatype MulHasher = MulHasher(canonical: bool, rot: nat)

  function MulF(b: Sym): bv32
  {
    (b as bv32) * MixingC
  }

  function MulLane(x: bv32): bv32
  {
    x * MixingC
  }

  /** `complement_base_simd`: the complement of every lane. */
  function LaneComp(x: bv32): bv32
  {
    x ^ 2
  }

  /** `simd_f` of a `MulHasher`: every lane times the mixing constant. */
  function MulSimdF(v: seq<bv32>): seq<bv32>
  {
    seq(|v|, l requires 0 <= l < |v| => MulLane(v[l]))
  }

  /** `simd_c` of a `MulHasher`: every lane complemented, then multiplied. */
  function MulSimdC(v: seq<bv32>): seq<bv32>
  {
    seq(|v|, l requires 0 <= l < |v| => MulLane(LaneComp(v[l])))
  }

  /** A lane-wise rotation by an amount below 32, as the SIMD shift-or pair computes it. */
  function MulSimdRot(v: seq<bv32>, n: int): seq<bv32>
  {
    seq(|v|, l requires 0 <= l < |v| => Rotl(v[l], n))
  }

  /** `c` of a `MulHasher`: the complement, multiplied. */
  function MulC(b: Sym): bv32
  {
    MulF(Comp(b))
  }

  /** `f_rot` of a `MulHasher`: rotated left by `rot * R`. */
  function MulFRot(m: MulHasher, b: Sym): bv32
  {
    Rotl(MulF(b), m.rot * R)
  }

  /** `c_rot` of a `MulHasher`. */
  function MulCRot(m: MulHasher, b: Sym): bv32
  {
    Rotl(MulC(b), m.rot * R)
  }

  /** `simd_f_rot` of a `MulHasher`: its rotation amount `rot * R % 32`. */
  function MulSimdFRot(m: MulHasher, v: seq<bv32>): seq<bv32>
  {
    MulSimdRot(MulSimdF(v), m.rot * R % 32)
  }

  /** `simd_c_rot` of a `MulHasher`. */
  function MulSimdCRot(m: MulHasher, v: seq<bv32>): seq<bv32>
  {
    MulSimdRot(MulSimdC(v), m.rot * R % 32)
  }

  /** The `CharHasher` methods of a `MulHasher`: multiplication by the mixing constant. */
  function MulMethods(m: MulHasher): CharHasher
  {
    CharHasher(m.canonical, false,
      b => MulF(b), b => MulC(b), b => MulFRot(m, b), b => MulCRot(m, b),
      v => MulSimdF(v), v => MulSimdC(v), v => MulSimdFRot(m, v), v => MulSimdCRot(m, v))
  }

  /** A rotation only depends on its amount modulo 32. */
  lemma RotlCongruent(x: bv32, a: int, b: int)
    requires a % 32 == b % 32
    ensures Rotl(x, a) == Rotl(x, b)
  {
  }

  /** `MulHasher::new`: the rotation count `(k - 1) mod 32`, multiplied by `R` at each use. */
  function MulNew(canonical: bool, k: nat): (m: MulHasher)
    requires k >= 1
    ensures m.canonical == canonical
    ensures ValidFor(MulMethods(m), k) && SimdAgrees(MulMethods(m))
  {
    var m := MulHasher(canonical, (k - 1) % 32);
    MulValidFor(m, k);
    MulSimdAgrees(m);
    m
  }

  lemma MulValidFor(m: MulHasher, k: nat)
    requires k >= 1 && m.rot == (k - 1) % 32
    ensures ValidFor(MulMethods(m), k)
  {
    var h := MulMethods(m);
    forall b: Sym | Accepts(h, b)
      ensures Accepts(h, Comp(b)) && h.c(b) == h.f(Comp(b))
      ensures h.fRot(b) == Rotl(h.f(b), R * (k - 1)) && h.cRot(b) == Rotl(h.c(b), R * (k - 1))
    {
      MulRotAt(m, k, b);
    }
  }

  lemma MulRotAt(m: MulHasher, k: nat, b: Sym)
    requires k >= 1 && m.rot == (k - 1) % 32
    ensures MulFRot(m, b) == Rotl(MulF(b), R * (k - 1)) && MulCRot(m, b) == Rotl(MulC(b), R * (k - 1))
  {
    RotMod(k - 1, m.rot);
    RotlCongruent(MulF(b), m.rot * R, R * (k - 1));
    RotlCongruent(MulC(b), m.rot * R, R * (k - 1));
  }

  /** Multiplying by `R` commutes with reducing the rotation count modulo 32. */
  lemma RotMod(n: nat, rot: nat)
    requires rot == n % 32
    ensures (rot * R) % 32 == (R * n) % 32
  {
    assert R == 7;
    ModTimesSeven(n, rot);
  }

  lemma ModTimesSeven(n: nat, rot: nat)
    requires rot == n % 32
    ensures (rot * 7) % 32 == (7 * n) % 32
  {
    var q := n / 32;
    assert 7 * n == 32 * (7 * q) + rot * 7;
    ModShift(7 * q, rot * 7);
  }

  lemma ModShift(m: int, x: int)
    ensures (32 * m + x) % 32 == x % 32
  {
  }

  lemma MulSimdAgrees(m: MulHasher)
    ensures SimdAgrees(MulMethods(m))
  {
    forall v: seq<bv32>, l: int | LanesAccepted(MulMethods(m), v) && 0 <= l < 8
      ensures LaneAgrees(MulMethods(m), v, l)
    {
      MulLaneF(v, l);
      MulLaneRot(m, v, l);
      MulLaneGlue(m, v, l);
    }
  }

  lemma MulLaneF(v: seq<bv32>, l: int)
    requires 0 <= l < |v| && v[l] < 256
    ensures |MulSimdF(v)| == |MulSimdC(v)| == |v|
    ensures MulSimdF(v)[l] == MulF(v[l] as Sym) && MulSimdC(v)[l] == MulC(v[l] as Sym)
  {
    LaneCast(v[l]);
  }

  lemma MulLaneRot(m: MulHasher, v: seq<bv32>, l: int)
    requires 0 <= l < |v| && v[l] < 256
    requires MulSimdF(v)[l] == MulF(v[l] as Sym) && MulSimdC(v)[l] == MulC(v[l] as Sym)
    ensures |MulSimdFRot(m, v)| == |MulSimdCRot(m, v)| == |v|
    ensures MulSimdFRot(m, v)[l] == MulFRot(m, v[l] as Sym) && MulSimdCRot(m, v)[l] == MulCRot(m, v[l] as Sym)
  {
    RotlCongruent(MulF(v[l] as Sym), m.rot * R % 32, m.rot * R);
    RotlCongruent(MulC(v[l] as Sym), m.rot * R % 32, m.rot * R);
  }

  lemma MulLaneGlue(m: MulHasher, v: seq<bv32>, l: int)
    requires 0 <= l < |v| && v[l] < 256
    requires |MulSimdF(v)| == |MulSimdC(v)| == |MulSimdFRot(m, v)| == |MulSimdCRot(m, v)| == |v|
    requires MulSimdF(v)[l] == MulF(v[l] as Sym) && MulSimdC(v)[l] == MulC(v[l] as Sym)
    requires MulSimdFRot(m, v)[l] == MulFRot(m, v[l] as Sym) && MulSimdCRot(m, v)[l] == MulCRot(m, v[l] as Sym)
    ensures LaneAgrees(MulMethods(m), v, l)
  {
  }

  /** A lane holding a byte computes what the scalar method computes on that byte. */
  lemma LaneCast(x: bv32)
    requires x < 256
    ensures MulLane(x) == MulF(x as Sym) && MulLane(LaneComp(x)) == MulC(x as Sym)
  {
  }

  // ---------------------------------------------------------------------------
  // The registers
  //
  // Every closure of the generic implementation captures two registers, `fw`
  // and `rc`, and updates them on each call. Each update is one function
  // here; whether `rc` is updated at all (only for a canonical hasher) is
  // decided by the closure.

  /** `rotate_left(R)`, as the shift-or pair the SIMD code writes out. */
  function RotlR(x: bv32): bv32
  {
    (x << 7) | (x >> 25)
  }

  /** `rotate_right(R)`. */
  function RotrR(x: bv32): bv32
  {
    (x >> 7) | (x << 25)
  }

  /** The forward register after reading `a`: `fw` in `mapper`, `fw_out` in the in-out closures. */
  function NextFw(h: CharHasher, fw: bv32, a: Sym): bv32
  {
    RotlR(fw) ^ h.f(a)
  }

  /** The reverse-complement register after reading `a`. */
  function NextRc(h: CharHasher, rc: bv32, a: Sym): bv32
  {
    RotrR(rc) ^ h.cRot(a)
  }

  /** The in-out closures take the outgoing symbol `r` out of `fw_out`. */
  function RemoveFw(h: CharHasher, fw: bv32, r: Sym): bv32
  {
    fw ^ h.fRot(r)
  }

  /** The in-out closures take the outgoing symbol `r` out of `rc_out`. */
  function RemoveRc(h: CharHasher, rc: bv32, r: Sym): bv32
  {
    rc ^ h.c(r)
  }

  /** The value a closure returns: `fw`, plus (wrapping) `rc` for a canonical hasher. */
  function Output(h: CharHasher, fw: bv32, rc: bv32): bv32
  {
    if h.canonical then WrappingAdd(fw, rc) else fw
  }

  /** The forward register after reading `s` from zero. */
  function Fw(h: CharHasher, s: seq<Sym>): bv32
    requires AcceptsAll(h, s)
    decreases |s|
  {
    if |s| == 0 then 0 else RotlR(Fw(h, s[..|s| - 1])) ^ h.f(s[|s| - 1])
  }

  /** The reverse-complement register after reading `s` from zero. */
  function Rc(h: CharHasher, s: seq<Sym>): bv32
    requires AcceptsAll(h, s)
    decreases |s|
  {
    if |s| == 0 then 0 else RotrR(Rc(h, s[..|s| - 1])) ^ h.cRot(s[|s| - 1])
  }

  /**
   * The hash of a sequence read in one pass: the forward register, plus
   * (wrapping) the reverse-complement register when the hasher is canonical.
   */
  function OnePassHash(h: CharHasher, s: seq<Sym>): bv32
    requires AcceptsAll(h, s)
  {
    Output(h, Fw(h, s), Rc(h, s))
  }

  lemma OnePassCanonical(h: CharHasher, s: seq<Sym>)
    requires AcceptsAll(h, s) && h.canonical
    ensures OnePassHash(h, s) == WrappingAdd(Fw(h, s), Rc(h, s))
  {
  }

  /** One step of `R` positions on top of a rotation by `a`. */
  lemma RotlRAdd(v: bv32, a: int)
    ensures RotlR(Rotl(v, a)) == Rotl(v, a + R)
  {
    Rotl7ShiftOr(Rotl(v, a));
    RotlAdd(v, a, 7);
  }

  /** One step of `R` positions back from a rotation by `a`. */
  lemma RotrRAdd(v: bv32, a: int)
    ensures RotrR(Rotl(v, a)) == Rotl(v, a - R)
  {
    Rotr7ShiftOr(Rotl(v, a));
    RotlAdd(v, a, -7);
  }

  lemma RotlRXor(x: bv32, y: bv32)
    ensures RotlR(x ^ y) == RotlR(x) ^ RotlR(y)
  {
  }

  lemma RotlROfZero()
    ensures RotlR(0) == 0 && RotrR(0) == 0
  {
  }

  /** One more symbol: one rotation and one XOR in the forward register. */
  lemma FwSnoc(h: CharHasher, y: seq<Sym>, a: Sym)
    requires AcceptsAll(h, y) && Accepts(h, a)
    ensures AcceptsAll(h, y + [a])
    ensures Fw(h, y + [a]) == RotlR(Fw(h, y)) ^ h.f(a)
  {
    SnocParts(y, a);
    FwLast(h, y + [a]);
  }

  lemma SnocParts(y: seq<Sym>, a: Sym)
    ensures (y + [a])[..|y + [a]| - 1] == y && (y + [a])[|y + [a]| - 1] == a
  {
    assert (y + [a])[..|y|] == y;
  }

  lemma FwLast(h: CharHasher, x: seq<Sym>)
    requires AcceptsAll(h, x) && |x| > 0
    ensures Fw(h, x) == RotlR(Fw(h, x[..|x| - 1])) ^ h.f(x[|x| - 1])
  {
  }

  /** One more symbol: one rotation and one XOR in the reverse-complement register. */
  lemma RcSnoc(h: CharHasher, y: seq<Sym>, a: Sym)
    requires AcceptsAll(h, y) && Accepts(h, a)
    ensures AcceptsAll(h, y + [a])
    ensures Rc(h, y + [a]) == RotrR(Rc(h, y)) ^ h.cRot(a)
  {
    SnocParts(y, a);
    RcLast(h, y + [a]);
  }

  lemma RcLast(h: CharHasher, x: seq<Sym>)
    requires AcceptsAll(h, x) && |x| > 0
    ensures Rc(h, x) == RotrR(Rc(h, x[..|x| - 1])) ^ h.cRot(x[|x| - 1])
  {
  }

  lemma ZerosSnoc(i: nat)
    ensures Zeros(i + 1) == Zeros(i) + [0]
  {
  }

  lemma ZerosAccepted(h: CharHasher, i: nat)
    ensures AcceptsAll(h, Zeros(i)) && Accepts(h, 0)
  {
  }

  lemma AcceptsSplit(h: CharHasher, x: seq<Sym>, y: seq<Sym>)
    requires AcceptsAll(h, x + y)
    ensures AcceptsAll(h, x) && AcceptsAll(h, y)
  {
    assert forall i :: 0 <= i < |x| ==> x[i] == (x + y)[i];
    assert forall i :: 0 <= i < |y| ==> y[i] == (x + y)[|x| + i];
  }

  lemma AcceptsLast(h: CharHasher, y: seq<Sym>, a: Sym)
    requires AcceptsAll(h, y + [a])
    ensures AcceptsAll(h, y) && Accepts(h, a)
  {
    AcceptsSplit(h, y, [a]);
    assert Accepts(h, [a][0]);
  }

  lemma AcceptsFirst(h: CharHasher, c: Sym, y: seq<Sym>)
    requires AcceptsAll(h, [c] + y)
    ensures AcceptsAll(h, y) && Accepts(h, c)
  {
    AcceptsSplit(h, [c], y);
    assert Accepts(h, [c][0]);
  }

  lemma AcceptsHead(h: CharHasher, x: seq<Sym>)
    requires AcceptsAll(h, x) && |x| >= 1
    ensures AcceptsAll(h, x[1..]) && Accepts(h, x[0])
  {
    assert forall i :: 0 <= i < |x| - 1 ==> x[1..][i] == x[i + 1];
  }

  lemma AcceptsRevComp(h: CharHasher, k: nat, x: seq<Sym>)
    requires ValidFor(h, k) && AcceptsAll(h, x)
    ensures AcceptsAll(h, RevComp(x))
  {
    forall i | 0 <= i < |x|
      ensures Accepts(h, RevComp(x)[i])
    {
      ValidAt(h, k, x[|x| - 1 - i]);
    }
  }

  /** The facts `ValidFor` gives about one accepted symbol. */
  lemma ValidAt(h: CharHasher, k: nat, b: Sym)
    requires ValidFor(h, k) && Accepts(h, b)
    ensures Accepts(h, Comp(b)) && h.c(b) == h.f(Comp(b))
    ensures h.fRot(b) == Rotl(h.f(b), R * (k - 1)) && h.cRot(b) == Rotl(h.c(b), R * (k - 1))
  {
  }

  /**
   * The first symbol's contribution to the forward register is its value
   * rotated once for each symbol after it: the term the window removes.
   */
  lemma {:induction false} FwCons(h: CharHasher, c: Sym, y: seq<Sym>)
    requires AcceptsAll(h, [c] + y)
    ensures AcceptsAll(h, y) && Accepts(h, c)
    ensures Fw(h, [c] + y) == Rotl(h.f(c), R * |y|) ^ Fw(h, y)
    decreases |y|
  {
    AcceptsFirst(h, c, y);
    if |y| == 0 {
      FwConsBase(h, c, y);
    } else {
      var z, b := y[..|y| - 1], y[|y| - 1];
      assert y == z + [b];
      assert [c] + y == ([c] + z) + [b];
      AcceptsLast(h, [c] + z, b);
      FwCons(h, c, z);
      FwConsInduct(h, c, z, b);
    }
  }

  lemma FwConsBase(h: CharHasher, c: Sym, y: seq<Sym>)
    requires Accepts(h, c) && y == []
    ensures AcceptsAll(h, [c] + y)
    ensures Fw(h, [c] + y) == Rotl(h.f(c), R * |y|) ^ Fw(h, y)
  {
    assert [c] + y == [] + [c];
    FwSnoc(h, [], c);
    FwConsBaseBits(h.f(c), R * |y|);
  }

  lemma FwConsBaseBits(v: bv32, a: int)
    requires a == 0
    ensures RotlR(0) ^ v == Rotl(v, a) ^ 0
  {
    RotlROfZero();
    RotlFullTurn(v, a);
  }

  /** The inductive step of `FwCons`: one more symbol `b` at the end. */
  lemma FwConsInduct(h: CharHasher, c: Sym, z: seq<Sym>, b: Sym)
    requires AcceptsAll(h, [c] + z) && Accepts(h, b) && AcceptsAll(h, z)
    requires Fw(h, [c] + z) == Rotl(h.f(c), R * |z|) ^ Fw(h, z)
    ensures AcceptsAll(h, ([c] + z) + [b]) && AcceptsAll(h, z + [b])
    ensures Fw(h, ([c] + z) + [b]) == Rotl(h.f(c), R * |z + [b]|) ^ Fw(h, z + [b])
  {
    FwSnoc(h, [c] + z, b);
    FwSnoc(h, z, b);
    FwConsBits(h.f(c), Fw(h, z), h.f(b), R * |z|, R * |z + [b]|);
  }

  lemma FwConsBits(v: bv32, z: bv32, w: bv32, a: int, b: int)
    requires b == a + R
    ensures RotlR(Rotl(v, a) ^ z) ^ w == Rotl(v, b) ^ (RotlR(z) ^ w)
  {
    RotlRXor(Rotl(v, a), z);
    RotlRAdd(v, a);
  }

  /**
   * The reverse-complement register of a sequence no longer than `k` is the
   * forward register of its reverse complement, rotated by the `R` positions
   * per symbol the sequence is short of `k`.
   */
  lemma {:induction false} RcMirror(h: CharHasher, k: nat, x: seq<Sym>)
    requires ValidFor(h, k) && AcceptsAll(h, x) && |x| <= k
    ensures AcceptsAll(h, RevComp(x))
    ensures Rc(h, x) == Rotl(Fw(h, RevComp(x)), R * (k - |x|))
    decreases |x|
  {
    AcceptsRevComp(h, k, x);
    if |x| == 0 {
      assert RevComp(x) == [];
      RotlOfZero(R * (k - |x|));
    } else {
      var y, a := x[..|x| - 1], x[|x| - 1];
      assert x == y + [a];
      AcceptsLast(h, y, a);
      RcMirror(h, k, y);
      RcMirrorInduct(h, k, y, a);
    }
  }

  /** The inductive step of `RcMirror`. */
  lemma RcMirrorInduct(h: CharHasher, k: nat, y: seq<Sym>, a: Sym)
    requires ValidFor(h, k) && AcceptsAll(h, y) && Accepts(h, a) && |y| < k
    requires AcceptsAll(h, RevComp(y))
    requires Rc(h, y) == Rotl(Fw(h, RevComp(y)), R * (k - |y|))
    ensures AcceptsAll(h, y + [a]) && AcceptsAll(h, RevComp(y + [a]))
    ensures Rc(h, y + [a]) == Rotl(Fw(h, RevComp(y + [a])), R * (k - |y + [a]|))
  {
    RcSnoc(h, y, a);
    ValidCRot(h, k, a);
    FwRevCompSnoc(h, k, y, a);
    RcMirrorGlue(Rc(h, y), Fw(h, RevComp(y)), h.f(Comp(a)), h.cRot(a), Rc(h, y + [a]), Fw(h, RevComp(y + [a])),
      R * (k - |y|), R * |y|, R * (k - 1), R * (k - |y + [a]|));
  }

  lemma RcMirrorGlue(rc: bv32, fw: bv32, g: bv32, cr: bv32, rc': bv32, fw': bv32, a: int, n: int, m: int, b: int)
    ensures (rc == Rotl(fw, a) && rc' == RotrR(rc) ^ cr && cr == Rotl(g, m) && fw' == Rotl(g, n) ^ fw &&
             b == a - R && m == n + b) ==> rc' == Rotl(fw', b)
  {
    if b == a - R && m == n + b {
      RcMirrorBits(fw, g, a, n, m, b);
    }
  }

  /** Appending a symbol puts its complement in front of the reverse complement. */
  lemma FwRevCompSnoc(h: CharHasher, k: nat, y: seq<Sym>, a: Sym)
    requires ValidFor(h, k) && AcceptsAll(h, y) && Accepts(h, a)
    ensures AcceptsAll(h, RevComp(y)) && AcceptsAll(h, RevComp(y + [a]))
    ensures Fw(h, RevComp(y + [a])) == Rotl(h.f(Comp(a)), R * |y|) ^ Fw(h, RevComp(y))
  {
    RevCompSnoc(y, a);
    AcceptsSplit(h, y, [a]);
    AcceptsRevComp(h, k, y + [a]);
    FwCons(h, Comp(a), RevComp(y));
  }

  lemma ValidCRot(h: CharHasher, k: nat, b: Sym)
    requires ValidFor(h, k) && Accepts(h, b)
    ensures Accepts(h, Comp(b)) && h.cRot(b) == Rotl(h.f(Comp(b)), R * (k - 1))
  {
  }

  lemma RcMirrorBits(v: bv32, g: bv32, a: int, n: int, m: int, b: int)
    requires b == a - R && m == n + b
    ensures RotrR(Rotl(v, a)) ^ Rotl(g, m) == Rotl(Rotl(g, n) ^ v, b)
  {
    RotrRBack(v, a, b);
    RotlXorAdd(g, v, n, b, m);
  }

  lemma RotrRBack(v: bv32, a: int, b: int)
    requires b == a - R
    ensures RotrR(Rotl(v, a)) == Rotl(v, b)
  {
    RotrRAdd(v, a);
  }

  lemma RotlXorAdd(g: bv32, v: bv32, n: int, b: int, m: int)
    requires m == n + b
    ensures Rotl(Rotl(g, n) ^ v, b) == Rotl(v, b) ^ Rotl(g, m)
  {
    RotlXorOf(g, v, n, b);
    RotlAdd(g, n, b);
    XorSwap(Rotl(Rotl(g, n) ^ v, b), Rotl(Rotl(g, n), b), Rotl(v, b), Rotl(g, m));
  }

  lemma RotlXorOf(g: bv32, v: bv32, n: int, b: int)
    ensures Rotl(Rotl(g, n) ^ v, b) == Rotl(Rotl(g, n), b) ^ Rotl(v, b)
  {
    RotlXor(Rotl(g, n), v, b);
  }

  /** A full k-mer: its reverse-complement register is the forward register of its reverse complement. */
  lemma RcFull(h: CharHasher, k: nat, x: seq<Sym>)
    requires ValidFor(h, k) && AcceptsAll(h, x) && |x| == k
    ensures AcceptsAll(h, RevComp(x)) && Rc(h, x) == Fw(h, RevComp(x))
  {
    RcMirror(h, k, x);
    RotlFullTurn(Fw(h, RevComp(x)), R * (k - |x|));
  }

  /**
   * A canonical hasher gives a k-mer and its reverse complement the same
   * hash.
   */
  lemma CanonicalRevComp(h: CharHasher, k: nat, x: seq<Sym>)
    requires ValidFor(h, k) && h.canonical && AcceptsAll(h, x) && |x| == k
    ensures AcceptsAll(h, RevComp(x))
    ensures OnePassHash(h, RevComp(x)) == OnePassHash(h, x)
  {
    RcFull(h, k, x);
    RcFull(h, k, RevComp(x));
    RevCompInvolution(x);
    OnePassCanonical(h, x);
    OnePassCanonical(h, RevComp(x));
    WrappingAddComm(Fw(h, x), Rc(h, x));
  }

  /**
   * Removing the first symbol of a k-mer from the forward register: XOR with
   * its pre-rotated value leaves the register of the last `k - 1` symbols.
   */
  lemma FwRemove(h: CharHasher, k: nat, x: seq<Sym>)
    requires ValidFor(h, k) && AcceptsAll(h, x) && |x| == k
    ensures AcceptsAll(h, x[1..]) && Accepts(h, x[0])
    ensures RemoveFw(h, Fw(h, x), x[0]) == Fw(h, x[1..])
  {
    FwHead(h, x);
    ValidAt(h, k, x[0]);
    XorCancel(h, Fw(h, x), Rotl(h.f(x[0]), R * (k - 1)), Fw(h, x[1..]), x[0]);
  }

  /** `FwCons` on a sequence split at its first symbol. */
  lemma FwHead(h: CharHasher, x: seq<Sym>)
    requires AcceptsAll(h, x) && |x| >= 1
    ensures AcceptsAll(h, x[1..]) && Accepts(h, x[0])
    ensures Fw(h, x) == Rotl(h.f(x[0]), R * (|x| - 1)) ^ Fw(h, x[1..])
  {
    assert x == [x[0]] + x[1..];
    FwCons(h, x[0], x[1..]);
  }

  lemma XorCancel(h: CharHasher, fw: bv32, u: bv32, v: bv32, r: Sym)
    ensures fw == u ^ v && h.fRot(r) == u ==> RemoveFw(h, fw, r) == v
  {
  }

  /**
   * Removing the first symbol of a k-mer from the reverse-complement
   * register: XOR with its complement value leaves the register of the last
   * `k - 1` symbols.
   */
  lemma RcRemove(h: CharHasher, k: nat, x: seq<Sym>)
    requires ValidFor(h, k) && AcceptsAll(h, x) && |x| == k
    ensures AcceptsAll(h, x[1..]) && Accepts(h, x[0])
    ensures RemoveRc(h, Rc(h, x), x[0]) == Rc(h, x[1..])
  {
    RcFullTail(h, k, x);
    RcMirror(h, k, x[1..]);
    RcRemoveGlue(h, Rc(h, x), Fw(h, RevComp(x[1..])), Rc(h, x[1..]), x[0], R * (k - |x[1..]|));
  }

  /** The reverse-complement register of a k-mer, split at its first symbol. */
  lemma RcFullTail(h: CharHasher, k: nat, x: seq<Sym>)
    requires ValidFor(h, k) && AcceptsAll(h, x) && |x| == k
    ensures AcceptsAll(h, x[1..]) && Accepts(h, x[0]) && AcceptsAll(h, RevComp(x[1..]))
    ensures Rc(h, x) == RotlR(Fw(h, RevComp(x[1..]))) ^ h.c(x[0])
  {
    AcceptsHead(h, x);
    RcFull(h, k, x);
    RevCompTail(x);
    ValidAt(h, k, x[0]);
    AcceptsRevComp(h, k, x[1..]);
    FwSnoc(h, RevComp(x[1..]), Comp(x[0]));
  }

  lemma RcRemoveGlue(h: CharHasher, rc: bv32, v: bv32, rc': bv32, r: Sym, a: int)
    ensures rc == RotlR(v) ^ h.c(r) && rc' == Rotl(v, a) && a == R ==> RemoveRc(h, rc, r) == rc'
  {
    if a == R {
      RcRemoveBits(h, v, r, a);
    }
  }

  lemma RcRemoveBits(h: CharHasher, v: bv32, r: Sym, a: int)
    requires a == R
    ensures RemoveRc(h, RotlR(v) ^ h.c(r), r) == Rotl(v, a)
  {
    Rotl7ShiftOr(v);
  }

  // ---------------------------------------------------------------------------
  // One call of a closure

  /**
   * One call of the `mapper` closure: from the registers of `y`, reading `a`
   * gives the registers of `y + [a]`, so the value returned is the one-pass
   * hash of `y + [a]`.
   */
  lemma MapperStepSpec(h: CharHasher, y: seq<Sym>, a: Sym)
    requires AcceptsAll(h, y) && Accepts(h, a)
    ensures AcceptsAll(h, y + [a])
    ensures NextFw(h, Fw(h, y), a) == Fw(h, y + [a])
    ensures NextRc(h, Rc(h, y), a) == Rc(h, y + [a])
    ensures Output(h, NextFw(h, Fw(h, y), a), NextRc(h, Rc(h, y), a)) == OnePassHash(h, y + [a])
  {
    FwSnoc(h, y, a);
    RcSnoc(h, y, a);
    OutputOf(h, NextFw(h, Fw(h, y), a), NextRc(h, Rc(h, y), a), y + [a]);
  }

  lemma OutputOf(h: CharHasher, fw: bv32, rc: bv32, x: seq<Sym>)
    requires AcceptsAll(h, x)
    ensures fw == Fw(h, x) && rc == Rc(h, x) ==> Output(h, fw, rc) == OnePassHash(h, x)
  {
  }

  /**
   * One call of an in-out closure: from the registers of a window `w` of
   * `k - 1` symbols, reading `a` and removing the first symbol of the k-mer
   * `w + [a]` leaves the registers of the last `k - 1` symbols, and the value
   * returned is the hash of the k-mer.
   */
  lemma InOutStepSpec(h: CharHasher, k: nat, w: seq<Sym>, a: Sym)
    requires ValidFor(h, k) && AcceptsAll(h, w) && Accepts(h, a) && |w| == k - 1
    ensures AcceptsAll(h, w + [a]) && AcceptsAll(h, (w + [a])[1..])
    ensures RemoveFw(h, NextFw(h, Fw(h, w), a), (w + [a])[0]) == Fw(h, (w + [a])[1..])
    ensures RemoveRc(h, NextRc(h, Rc(h, w), a), (w + [a])[0]) == Rc(h, (w + [a])[1..])
    ensures Output(h, NextFw(h, Fw(h, w), a), NextRc(h, Rc(h, w), a)) == OnePassHash(h, w + [a])
  {
    MapperStepSpec(h, w, a);
    FwRemove(h, k, w + [a]);
    RcRemove(h, k, w + [a]);
  }

  /**
   * The priming loop of the in-out closures: `k - 1` zero symbols, the
   * reverse-complement register only when the hasher is canonical.
   */
  method Prime(h: CharHasher, k: nat) returns (fw: bv32, rc: bv32)
    requires k >= 1
    ensures AcceptsAll(h, Zeros(k - 1)) && fw == Fw(h, Zeros(k - 1))
    ensures h.canonical ==> rc == Rc(h, Zeros(k - 1))
    ensures !h.canonical ==> rc == 0
  {
    fw, rc := 0, 0;
    PrimeStart(h);
    for i := 0 to k - 1
      invariant AcceptsAll(h, Zeros(i)) && fw == Fw(h, Zeros(i))
      invariant h.canonical ==> rc == Rc(h, Zeros(i))
      invariant !h.canonical ==> rc == 0
    {
      PrimeStep(h, i);
      fw := NextFw(h, fw, 0);
      if h.canonical {
        rc := NextRc(h, rc, 0);
      }
    }
  }

  lemma PrimeStart(h: CharHasher)
    ensures AcceptsAll(h, Zeros(0)) && Fw(h, Zeros(0)) == 0 && Rc(h, Zeros(0)) == 0
  {
    assert Zeros(0) == [];
  }

  lemma PrimeStep(h: CharHasher, i: nat)
    ensures AcceptsAll(h, Zeros(i)) && AcceptsAll(h, Zeros(i + 1))
    ensures NextFw(h, Fw(h, Zeros(i)), 0) == Fw(h, Zeros(i + 1))
    ensures NextRc(h, Rc(h, Zeros(i)), 0) == Rc(h, Zeros(i + 1))
  {
    ZerosAccepted(h, i);
    ZerosSnoc(i);
    MapperStepSpec(h, Zeros(i), 0);
  }

  // ---------------------------------------------------------------------------
  // Eight lanes at once

  /** `S::splat`: every lane holds `x`. */
  function Splat(x: bv32): (v: seq<bv32>)
    ensures |v| == 8 && forall l :: 0 <= l < 8 ==> v[l] == x
  {
    seq(8, l => x)
  }

  /**
   * The priming of `in_out_mapper_simd`: the scalar priming loop, its two
   * registers then splatted to all eight lanes.
   */
  method PrimeSimd(h: CharHasher, k: nat) returns (fw: seq<bv32>, rc: seq<bv32>)
    requires k >= 1
    ensures AcceptsAll(h, Zeros(k - 1)) && |fw| == 8 && |rc| == 8
    ensures forall l :: 0 <= l < 8 ==> fw[l] == Fw(h, Zeros(k - 1))
    ensures forall l :: 0 <= l < 8 ==> rc[l] == if h.canonical then Rc(h, Zeros(k - 1)) else 0
  {
    var f, r := Prime(h, k);
    fw, rc := Splat(f), Splat(r);
  }

  function LaneRotlR(v: seq<bv32>): seq<bv32>
  {
    seq(|v|, l requires 0 <= l < |v| => RotlR(v[l]))
  }

  function LaneRotrR(v: seq<bv32>): seq<bv32>
  {
    seq(|v|, l requires 0 <= l < |v| => RotrR(v[l]))
  }

  function LaneXor(u: seq<bv32>, v: seq<bv32>): seq<bv32>
    requires |u| == |v|
  {
    seq(|u|, l requires 0 <= l < |u| => u[l] ^ v[l])
  }

  /** Lane-wise wrapping addition. */
  function LaneAdd(u: seq<bv32>, v: seq<bv32>): seq<bv32>
    requires |u| == |v|
  {
    seq(|u|, l requires 0 <= l < |u| => WrappingAdd(u[l], v[l]))
  }

  /** `fw_out` of the eight-lane closure. */
  function SimdNextFw(h: CharHasher, fw: seq<bv32>, a: seq<bv32>): seq<bv32>
    requires |fw| == 8 && |h.simdF(a)| == 8
  {
    LaneXor(LaneRotlR(fw), h.simdF(a))
  }

  /** `rc_out` of the eight-lane closure. */
  function SimdNextRc(h: CharHasher, rc: seq<bv32>, a: seq<bv32>): seq<bv32>
    requires |rc| == 8 && |h.simdCRot(a)| == 8
  {
    LaneXor(LaneRotrR(rc), h.simdCRot(a))
  }

  /** The eight-lane closure takes the outgoing symbols out of `fw_out`. */
  function SimdRemoveFw(h: CharHasher, fw: seq<bv32>, r: seq<bv32>): seq<bv32>
    requires |fw| == 8 && |h.simdFRot(r)| == 8
  {
    LaneXor(fw, h.simdFRot(r))
  }

  /** The eight-lane closure takes the outgoing symbols out of `rc_out`. */
  function SimdRemoveRc(h: CharHasher, rc: seq<bv32>, r: seq<bv32>): seq<bv32>
    requires |rc| == 8 && |h.simdC(r)| == 8
  {
    LaneXor(rc, h.simdC(r))
  }

  /** The value returned by the eight-lane closure. */
  function SimdOutput(h: CharHasher, fw: seq<bv32>, rc: seq<bv32>): seq<bv32>
    requires |fw| == 8 && |rc| == 8
  {
    if h.canonical then LaneAdd(fw, rc) else fw
  }

  /** The SIMD lookups on accepted lanes, lane `l`. */
  lemma SimdAt(h: CharHasher, v: seq<bv32>, l: int)
    requires SimdAgrees(h) && LanesAccepted(h, v) && 0 <= l < 8
    ensures |h.simdF(v)| == 8 && |h.simdC(v)| == 8 && |h.simdFRot(v)| == 8 && |h.simdCRot(v)| == 8
    ensures h.simdF(v)[l] == h.f(v[l] as Sym) && h.simdC(v)[l] == h.c(v[l] as Sym)
    ensures h.simdFRot(v)[l] == h.fRot(v[l] as Sym) && h.simdCRot(v)[l] == h.cRot(v[l] as Sym)
  {
    assert LaneAgrees(h, v, l);
  }

  /**
   * Lane `l` of the eight-lane closure is the scalar in-out closure on that
   * lane's registers and symbols.
   */
  lemma SimdLane(h: CharHasher, fw: seq<bv32>, rc: seq<bv32>, a: seq<bv32>, r: seq<bv32>, l: int)
    requires SimdAgrees(h) && LanesAccepted(h, a) && LanesAccepted(h, r)
    requires |fw| == 8 && |rc| == 8 && 0 <= l < 8
    ensures |h.simdF(a)| == |h.simdCRot(a)| == |h.simdFRot(r)| == |h.simdC(r)| == 8
    ensures |SimdNextFw(h, fw, a)| == 8 && |SimdNextRc(h, rc, a)| == 8
    ensures SimdNextFw(h, fw, a)[l] == NextFw(h, fw[l], a[l] as Sym)
    ensures SimdNextRc(h, rc, a)[l] == NextRc(h, rc[l], a[l] as Sym)
    ensures SimdRemoveFw(h, SimdNextFw(h, fw, a), r)[l] == RemoveFw(h, NextFw(h, fw[l], a[l] as Sym), r[l] as Sym)
    ensures SimdRemoveRc(h, SimdNextRc(h, rc, a), r)[l] == RemoveRc(h, NextRc(h, rc[l], a[l] as Sym), r[l] as Sym)
    ensures SimdOutput(h, SimdNextFw(h, fw, a), SimdNextRc(h, rc, a))[l]
      == Output(h, NextFw(h, fw[l], a[l] as Sym), NextRc(h, rc[l], a[l] as Sym))
  {
    SimdAt(h, a, l);
    SimdAt(h, r, l);
    LaneNextFw(h, fw, a, l);
    LaneRemoveFw(h, SimdNextFw(h, fw, a), r, l);
    LaneNextRc(h, rc, a, l);
    LaneRemoveRc(h, SimdNextRc(h, rc, a), r, l);
    LaneOutput(h, SimdNextFw(h, fw, a), SimdNextRc(h, rc, a), l);
  }

  lemma LaneNextFw(h: CharHasher, fw: seq<bv32>, a: seq<bv32>, l: int)
    requires |fw| == 8 && |h.simdF(a)| == 8 && 0 <= l < 8 && l < |a| && a[l] < 256
    requires h.simdF(a)[l] == h.f(a[l] as Sym)
    ensures |SimdNextFw(h, fw, a)| == 8 && SimdNextFw(h, fw, a)[l] == NextFw(h, fw[l], a[l] as Sym)
  {
  }

  lemma LaneRemoveFw(h: CharHasher, fw: seq<bv32>, r: seq<bv32>, l: int)
    requires |fw| == 8 && |h.simdFRot(r)| == 8 && 0 <= l < 8 && l < |r| && r[l] < 256
    requires h.simdFRot(r)[l] == h.fRot(r[l] as Sym)
    ensures |SimdRemoveFw(h, fw, r)| == 8 && SimdRemoveFw(h, fw, r)[l] == RemoveFw(h, fw[l], r[l] as Sym)
  {
  }

  lemma LaneNextRc(h: CharHasher, rc: seq<bv32>, a: seq<bv32>, l: int)
    requires |rc| == 8 && |h.simdCRot(a)| == 8 && 0 <= l < 8 && l < |a| && a[l] < 256
    requires h.simdCRot(a)[l] == h.cRot(a[l] as Sym)
    ensures |SimdNextRc(h, rc, a)| == 8 && SimdNextRc(h, rc, a)[l] == NextRc(h, rc[l], a[l] as Sym)
  {
  }

  lemma LaneRemoveRc(h: CharHasher, rc: seq<bv32>, r: seq<bv32>, l: int)
    requires |rc| == 8 && |h.simdC(r)| == 8 && 0 <= l < 8 && l < |r| && r[l] < 256
    requires h.simdC(r)[l] == h.c(r[l] as Sym)
    ensures |SimdRemoveRc(h, rc, r)| == 8 && SimdRemoveRc(h, rc, r)[l] == RemoveRc(h, rc[l], r[l] as Sym)
  {
  }

  lemma LaneOutput(h: CharHasher, fw: seq<bv32>, rc: seq<bv32>, l: int)
    requires |fw| == 8 && |rc| == 8 && 0 <= l < 8
    ensures SimdOutput(h, fw, rc)[l] == Output(h, fw[l], rc[l])
  {
    if h.canonical {
      LaneOutputCanonical(h, fw, rc, l);
    } else {
      LaneOutputForward(h, fw, rc, l);
    }
  }

  lemma LaneOutputCanonical(h: CharHasher, fw: seq<bv32>, rc: seq<bv32>, l: int)
    requires |fw| == 8 && |rc| == 8 && 0 <= l < 8 && h.canonical
    ensures SimdOutput(h, fw, rc)[l] == Output(h, fw[l], rc[l])
  {
  }

  lemma LaneOutputForward(h: CharHasher, fw: seq<bv32>, rc: seq<bv32>, l: int)
    requires |fw| == 8 && |rc| == 8 && 0 <= l < 8 && !h.canonical
    ensures SimdOutput(h, fw, rc)[l] == Output(h, fw[l], rc[l])
  {
  }

  // ---------------------------------------------------------------------------
  // The Rust code as written

  /**
   * The value returned by the scalar closures as written: the
   * reverse-complement register is added when the hasher is NOT canonical.
   */
  function OutputAsWritten(h: CharHasher, fw: bv32, rc: bv32): bv32
  {
    if !h.canonical then WrappingAdd(fw, rc) else fw
  }

  /**
   * The first call of `mapper` as written, from fresh registers: it updates
   * `rc` under the same inverted test.
   */
  function FirstMapperCallAsWritten(h: CharHasher, a: Sym): bv32
  {
    if !h.canonical then OutputAsWritten(h, NextFw(h, 0, a), NextRc(h, 0, a))
    else OutputAsWritten(h, NextFw(h, 0, a), 0)
  }

  /**
   * With the inverted test a canonical hasher is not canonical: for k = 1 the
   * base A (0) and its reverse complement T (2) hash differently through the
   * mapper as written, while the one-pass hash gives them one value.
   */
  lemma InvertedTestNotCanonical()
    ensures var h := MulMethods(MulNew(true, 1));
      RevComp([0]) == [2] &&
      FirstMapperCallAsWritten(h, 0) != FirstMapperCallAsWritten(h, 2) &&
      OnePassHash(h, [0]) == OnePassHash(h, [2])
  {
    var h := MulMethods(MulNew(true, 1));
    assert RevComp([0]) == [Comp(0)];
    InvertedTestOutputs(h);
    CanonicalOneBase(h);
  }

  lemma CanonicalOneBase(h: CharHasher)
    requires ValidFor(h, 1) && h.canonical && !h.basesOnly
    ensures AcceptsAll(h, [0]) && AcceptsAll(h, [2])
    ensures OnePassHash(h, [0]) == OnePassHash(h, [2])
  {
    assert RevComp([0])[0] == Comp(0) == 2;
    assert RevComp([0]) == [2];
    CanonicalRevComp(h, 1, [0]);
  }

  lemma InvertedTestOutputs(h: CharHasher)
    requires h == MulMethods(MulNew(true, 1))
    ensures FirstMapperCallAsWritten(h, 0) == 0 && FirstMapperCallAsWritten(h, 2) == 0x4e44_152a
  {
    RotlROfZero();
    assert h.f(0) == 0 && h.f(2) == 0x4e44_152a;
  }

  /**
   * `NtHasher::new` as written: the pre-rotated tables are rotated by
   * `k - 1` positions rather than `R * (k - 1)`.
   */
  function NtNewAsWritten(canonical: bool, k: nat): NtHasher
    requires k >= 1
  {
    NtTables(canonical, k - 1)
  }

  /**
   * With the tables as written, removing a symbol leaves the wrong register:
   * for k = 2 and the forward hasher, after the window [A] the step that adds
   * A and removes A must leave the register of [A], and it does not.
   */
  lemma RotationAsWrittenBreaksRemoval()
    ensures var h := NtMethods(NtNewAsWritten(false, 2));
      AcceptsAll(h, [0]) &&
      RemoveFw(h, NextFw(h, Fw(h, [0]), 0), 0) != Fw(h, [0])
  {
    var h := NtMethods(NtNewAsWritten(false, 2));
    AsWrittenLookups(h);
    FwOneSymbol(h, 0);
    RotationAsWrittenGlue(h, Fw(h, [0]), h.f(0), h.fRot(0));
  }

  lemma AsWrittenLookups(h: CharHasher)
    requires h == NtMethods(NtNewAsWritten(false, 2))
    ensures h.f(0) == 0x95c6_0474 && h.fRot(0) == Rotl(h.f(0), 1)
  {
  }

  lemma FwOneSymbol(h: CharHasher, a: Sym)
    requires Accepts(h, a)
    ensures AcceptsAll(h, [a]) && Fw(h, [a]) == h.f(a)
  {
    assert [a] == [] + [a];
    FwSnoc(h, [], a);
    RotlROfZero();
  }

  lemma RotationAsWrittenGlue(h: CharHasher, fw: bv32, f: bv32, rot: bv32)
    ensures (fw == f && f == 0x95c6_0474 && h.f(0) == f && h.fRot(0) == rot && rot == Rotl(f, 1))
      ==> RemoveFw(h, NextFw(h, fw, 0), 0) != fw
  {
    RotlRecUnfold(f, 0);
    if f == 0x95c6_0474 {
      RotationAsWrittenBits(f);
    }
  }

  lemma RotationAsWrittenBits(f0: bv32)
    requires f0 == 0x95c6_0474
    ensures RotlR(f0) ^ f0 ^ f0.RotateLeft(1) != f0
  {
  }
}
