/**
 * `AntiLexHasher`: the hash of a k-mer is its last (at most 16) two-bit
 * bases packed into one 32-bit word, read right to left so that the newest
 * base is the most significant, with the two bits of that newest base
 * inverted. The canonical variant also packs the reverse complement of the
 * k-mer's first (at most 16) bases and returns the smaller of the two words.
 */
module AntiLex {
  import opened Bits
  import opened Symbols
  import opened Order

  /** The hasher: `shift` places a new base on top, `anti` inverts it, `mask` keeps `k` bases. */
  datatype AntiLexHasher = AntiLexHasher(canonical: bool, k: nat, b: nat, shift: nat, anti: bv32, mask: bv32)

  /** How many bases a word holds or a hash covers: `min(k, 16)`. */
  function Width(k: nat): nat
  {
    if k < 16 then k else 16
  }

  /** The two bits of the most significant base of a word covering `Width(n)` bases. */
  function Top(n: nat): bv32
    requires n >= 1
  {
    Shl(3, 2 * (Width(n) - 1))
  }

  /**
   * `AntiLexHasher::new(k)`: two bits per base; the new base goes in at bit
   * `2 * (k - 1)`, or at the top two bits once `k` reaches 16; `anti` covers
   * that base, and `mask` keeps the low `2 * k` bits (all 32 once `k`
   * reaches 16).
   */
  function New(canonical: bool, k: nat): (h: AntiLexHasher)
    requires k >= 1
    ensures h.canonical == canonical && h.k == k && h.b == 2
    ensures h.shift == 2 * (Width(k) - 1) && h.shift <= 30
    ensures h.mask == LowMask(Width(k))
    ensures h.anti == Top(k) && FitsSyms(h.anti, Width(k))
  {
    var b := 2;
    var shift := if b * k <= 32 then b * (k - 1) else 32 - b;
    var anti := Shl((1 << 2) - 1, shift);
    var mask: bv32 := if b * k < 32 then Shl(1, b * k) - 1 else 0xFFFF_FFFF;
    NewMask(k);
    TopSymbolInMask(Width(k));
    AntiLexHasher(canonical, k, b, shift, anti, mask)
  }

  lemma NewMask(k: nat)
    requires k >= 1
    ensures (if 2 * k < 32 then Shl(1, 2 * k) - 1 else 0xFFFF_FFFF) == LowMask(Width(k))
  {
    if k < 16 {
      ShlMask(k);
    } else {
      LowMask16();
    }
  }

  /** The canonical `delay()`: `k - 16`, saturating at zero. */
  function CanonicalDelay(k: nat): (d: nat)
    ensures d + Width(k) == k
    ensures k >= 1 ==> d <= k - 1
  {
    if k >= 16 then k - 16 else 0
  }

  // ---------------------------------------------------------------------------
  // The registers

  /** `fw ^= a << shift`: the base `a` goes in at bit `shift`. */
  function PutTop(fw: bv32, a: Sym, shift: nat): bv32
  {
    fw ^ Shl(a as bv32, shift)
  }

  /** `fw = (fw >> 2) ^ (a << shift)`: the older bases move down one base, `a` goes in on top. */
  function FwStep(fw: bv32, a: Sym, shift: nat): bv32
  {
    PutTop(fw >> 2, a, shift)
  }

  /** The base `c` placed `n` bases up: `(c as u32) << (2 * n)`. */
  function Lift(c: Sym, n: nat): bv32
  {
    Shl(c as bv32, 2 * n)
  }

  /** `r as u32 ^ 2`: the complement of the outgoing base, as a word. */
  function CompIn(r: Sym): bv32
  {
    (r as bv32) ^ 2
  }

  /** `rc = ((rc << 2) & mask) ^ (r ^ 2)`: the complement of `r` goes in at the bottom. */
  function RcStep(rc: bv32, r: Sym, mask: bv32): bv32
  {
    ((rc << 2) & mask) ^ CompIn(r)
  }

  /** `fw ^ anti`: the top base inverted. */
  function Anti(fw: bv32, anti: bv32): bv32
  {
    fw ^ anti
  }

  /** `std::cmp::min` on `u32`. */
  function Min(x: bv32, y: bv32): (r: bv32)
    ensures r <= x && r <= y && (r == x || r == y)
  {
    if x <= y then x else y
  }

  lemma MinComm(x: bv32, y: bv32)
    ensures Min(x, y) == Min(y, x)
  {
    if x <= y && y <= x {
      Antisym(x, y);
    }
  }

  // ---------------------------------------------------------------------------
  // Packing

  /** The bases of `w` as a base-4 number: `w[0]` in the low two bits, each later base two bits higher. */
  function Pack(w: seq<Sym>): bv32
    decreases |w|
  {
    if |w| == 0 then 0 else (w[0] as bv32) ^ (Pack(w[1..]) << 2)
  }

  lemma PackCons(c: Sym, u: seq<Sym>)
    ensures Pack([c] + u) == (c as bv32) ^ (Pack(u) << 2)
  {
    assert ([c] + u)[1..] == u;
  }

  lemma PackOne(a: Sym)
    ensures Pack([a]) == Shl(a as bv32, 0)
  {
    assert [a][1..] == [];
  }

  /** A base appended to `v` lands `2 * |v|` bits up. */
  lemma {:induction false} PackSnoc(v: seq<Sym>, a: Sym)
    ensures Pack(v + [a]) == Pack(v) ^ Shl(a as bv32, 2 * |v|)
    decreases |v|
  {
    if |v| == 0 {
      assert v + [a] == [a];
      PackOne(a);
    } else {
      PackSnoc(v[1..], a);
      PackSnocStep(v, a);
    }
  }

  lemma PackSnocStep(v: seq<Sym>, a: Sym)
    requires |v| >= 1
    requires Pack(v[1..] + [a]) == Pack(v[1..]) ^ Shl(a as bv32, 2 * |v[1..]|)
    ensures Pack(v + [a]) == Pack(v) ^ Shl(a as bv32, 2 * |v|)
  {
    PackSnocUnfold(v, a);
    ShlTwoMore(a as bv32, v);
    PackSnocGlue(Pack(v + [a]), Pack(v), v[0] as bv32, Pack(v[1..] + [a]), Pack(v[1..]),
      Shl(a as bv32, 2 * |v[1..]|), Shl(a as bv32, 2 * |v|));
  }

  lemma ShlTwoMore(x: bv32, v: seq<Sym>)
    requires |v| >= 1
    ensures Shl(x, 2 * |v|) == Shl(x, 2 * |v[1..]|) << 2
  {
    ShlStep(x, 2 * |v[1..]|);
  }

  lemma PackSnocUnfold(v: seq<Sym>, a: Sym)
    requires |v| >= 1
    ensures Pack(v + [a]) == (v[0] as bv32) ^ (Pack(v[1..] + [a]) << 2)
    ensures Pack(v) == (v[0] as bv32) ^ (Pack(v[1..]) << 2)
  {
    assert (v + [a])[1..] == v[1..] + [a];
    assert (v + [a])[0] == v[0];
  }

  lemma PackSnocGlue(pva: bv32, pv: bv32, c: bv32, pta: bv32, pt: bv32, s: bv32, s2: bv32)
    ensures (pva == c ^ (pta << 2) && pv == c ^ (pt << 2) && pta == pt ^ s && s2 == s << 2) ==> pva == pv ^ s2
  {
    PackSnocBits(c, pt, s);
  }

  lemma PackSnocBits(c: bv32, p: bv32, s: bv32)
    ensures c ^ ((p ^ s) << 2) == (c ^ (p << 2)) ^ (s << 2)
  {
  }

  /** The packing of `j` bases stays within the low `2 * j` bits. */
  lemma {:induction false} PackFits(w: seq<Sym>)
    requires AllBases(w)
    ensures FitsSyms(Pack(w), |w|)
    decreases |w|
  {
    if |w| > 0 {
      PackFits(w[1..]);
      LowMaskUnfold(|w| - 1);
      CastBase(w[0]);
      FitsConsGlue(Pack(w), w[0] as bv32, Pack(w[1..]), LowMask(|w|), LowMask(|w| - 1));
    }
  }

  lemma CastBase(b: Sym)
    requires b < 4
    ensures (b as bv32) < 4
  {
  }

  lemma FitsConsGlue(pw: bv32, c: bv32, p: bv32, lm: bv32, lm1: bv32)
    ensures (pw == c ^ (p << 2) && lm == (lm1 << 2) | 3 && c < 4 && p & lm1 == p) ==> pw & lm == pw
  {
    if c < 4 && p & lm1 == p {
      FitsConsBits(c, p, lm1);
    }
  }

  lemma FitsConsBits(c: bv32, p: bv32, m: bv32)
    requires c < 4 && p & m == p
    ensures (c ^ (p << 2)) & ((m << 2) | 3) == c ^ (p << 2)
  {
  }

  /** Shifting a packing down two bits drops its oldest base. */
  lemma PackShr(w: seq<Sym>)
    requires AllBases(w) && 1 <= |w| <= 16
    ensures Pack(w) >> 2 == Pack(w[1..])
  {
    PackFits(w[1..]);
    FitsWider(Pack(w[1..]), |w| - 1, 15);
    LowMask15();
    CastBase(w[0]);
    ShrConsGlue(Pack(w), w[0] as bv32, Pack(w[1..]));
  }

  lemma ShrConsGlue(pw: bv32, c: bv32, p: bv32)
    ensures (pw == c ^ (p << 2) && c < 4 && p & 0x3FFF_FFFF == p) ==> pw >> 2 == p
  {
    if c < 4 && p & 0x3FFF_FFFF == p {
      ShrConsBits(c, p);
    }
  }

  lemma ShrConsBits(c: bv32, p: bv32)
    requires c < 4 && p & 0x3FFF_FFFF == p
    ensures (c ^ (p << 2)) >> 2 == p
  {
  }

  /** A word shifted `2 * j` bits up has nothing in the low `2 * j` bits. */
  lemma {:induction false} ShlAboveMask(x: bv32, j: nat)
    ensures Shl(x, 2 * j) & LowMask(j) == 0
    decreases j
  {
    if j > 0 {
      ShlAboveMask(x, j - 1);
      ShlStep(x, 2 * (j - 1));
      LowMaskUnfold(j - 1);
      AboveBits(Shl(x, 2 * (j - 1)), LowMask(j - 1));
    }
  }

  lemma AboveBits(y: bv32, m: bv32)
    requires y & m == 0
    ensures (y << 2) & ((m << 2) | 3) == 0
  {
  }

  /** A word of `j` bases shifted up one base holds `j + 1`. */
  lemma ShlFits(x: bv32, j: nat)
    requires FitsSyms(x, j)
    ensures FitsSyms(x << 2, j + 1)
  {
    LowMaskUnfold(j);
    ShiftInMask(x, LowMask(j));
  }

  lemma CompCast(r: Sym)
    ensures CompIn(r) == Comp(r) as bv32
  {
  }

  lemma {:induction false} PackZeros(m: nat)
    ensures Pack(Zeros(m)) == 0
    decreases m
  {
    if m > 0 {
      assert Zeros(m)[1..] == Zeros(m - 1);
      PackZeros(m - 1);
    }
  }

  // ---------------------------------------------------------------------------
  // One step of each register

  /**
   * The forward step slides the window of the last `m` bases: the oldest
   * base drops off the bottom, the new one enters on top.
   */
  lemma FwStepSpec(y: seq<Sym>, a: Sym, m: nat)
    requires AllBases(y) && a < 4 && 1 <= m <= 16
    ensures FwStep(Pack(Window(y, m)), a, 2 * (m - 1)) == Pack(Window(y + [a], m))
  {
    WindowBases(y, m);
    PackShr(Window(y, m));
    WindowDrop(y, m - 1);
    PackSnoc(Window(y, m - 1), a);
    WindowSnoc(y, a, m - 1);
    FwStepGlue(Pack(Window(y, m)), Pack(Window(y, m - 1)), Shl(a as bv32, 2 * (m - 1)), Pack(Window(y + [a], m)));
  }

  lemma FwStepGlue(p: bv32, q: bv32, t: bv32, r: bv32)
    ensures (p >> 2 == q && r == q ^ t) ==> (p >> 2) ^ t == r
  {
  }

  /**
   * The reverse-complement step keeps the reverse complement of the last
   * `m` bases: the complement of the new base enters at the bottom and the
   * mask drops the base that leaves.
   *
   * The mask is a parameter equal to `LowMask(m)`, so that the word facts
   * below never unfold the definition of the mask.
   */
  lemma {:induction false} RcStepSpec(z: seq<Sym>, r: Sym, m: nat, msk: bv32)
    requires AllBases(z) && 1 <= m <= 16 && msk == LowMask(m)
    ensures RcStep(Pack(RevComp(LastN(z, m))), r, msk) == Pack(RevComp(LastN(z + [r], m)))
  {
    LastNSnoc(z, r, m);
    LastNBases(z, m);
    if |z| >= m {
      RcStepFull(LastN(z, m), LastN(z, m)[1..], LastN(z, m)[0] ^ 2, r, m, msk);
    } else {
      RcStepShort(z, r, m, msk);
    }
  }

  /*
   * The step lemmas below come in layers: one lemma turns facts about
   * sequences into facts about packed words, another combines those word
   * facts with no hypotheses about sequences in scope, and the step lemma
   * calls both, passing only sequences and plain words to them.
   */

  /** While the window is short, nothing reaches the mask. */
  lemma {:induction false} RcStepShort(z: seq<Sym>, r: Sym, m: nat, msk: bv32)
    requires AllBases(z) && |z| < m && msk == LowMask(m)
    ensures RcStep(Pack(RevComp(z)), r, msk) == Pack(RevComp(z + [r]))
  {
    RcShortFacts(z, r, m, msk);
    RcShortCombine(z, r, msk);
  }

  lemma {:induction false} RcShortFacts(z: seq<Sym>, r: Sym, m: nat, msk: bv32)
    requires AllBases(z) && |z| < m && msk == LowMask(m)
    ensures (Pack(RevComp(z)) << 2) & msk == Pack(RevComp(z)) << 2
    ensures Pack(RevComp(z + [r])) == CompIn(r) ^ (Pack(RevComp(z)) << 2)
  {
    PackRevCompFits(z, m, msk);
    PackRevCompSnoc(z, r);
  }

  lemma RcShortCombine(z: seq<Sym>, r: Sym, msk: bv32)
    requires (Pack(RevComp(z)) << 2) & msk == Pack(RevComp(z)) << 2
    requires Pack(RevComp(z + [r])) == CompIn(r) ^ (Pack(RevComp(z)) << 2)
    ensures RcStep(Pack(RevComp(z)), r, msk) == Pack(RevComp(z + [r]))
  {
    RcWords(Pack(RevComp(z)), Pack(RevComp(z)), r, msk, Pack(RevComp(z + [r])));
  }

  /** Once the window is full, the mask drops the complement of its oldest base. */
  lemma {:induction false} RcStepFull(l: seq<Sym>, l1: seq<Sym>, c0: Sym, r: Sym, m: nat, msk: bv32)
    requires AllBases(l) && |l| == m && 1 <= m <= 16 && msk == LowMask(m)
    requires l1 == l[1..] && c0 == Comp(l[0])
    ensures RcStep(Pack(RevComp(l)), r, msk) == Pack(RevComp(l1 + [r]))
  {
    RcDropFacts(l, l1, m, msk, c0);
    PackRevCompSnoc(l1, r);
    RcFullCombine(l, l1, l1 + [r], c0, m, r, msk);
  }

  lemma {:induction false} RcDropFacts(l: seq<Sym>, l1: seq<Sym>, m: nat, msk: bv32, c0: Sym)
    requires AllBases(l) && |l| == m && 1 <= m <= 16 && msk == LowMask(m) && c0 == Comp(l[0]) && l1 == l[1..]
    ensures Pack(RevComp(l)) == Pack(RevComp(l1)) ^ Lift(c0, m - 1)
    ensures (Lift(c0, m - 1) << 2) & msk == 0
    ensures (Pack(RevComp(l1)) << 2) & msk == Pack(RevComp(l1)) << 2
  {
    PackRevCompTail(l, l1, m, c0);
    TopLeavesMask(c0, m, msk);
    AllBasesTail(l, l1);
    PackRevCompFits(l1, m, msk);
  }

  lemma {:induction false} RcFullCombine(u: seq<Sym>, v: seq<Sym>, w: seq<Sym>, c0: Sym, m: nat, r: Sym, msk: bv32)
    requires m >= 1
    requires Pack(RevComp(u)) == Pack(RevComp(v)) ^ Lift(c0, m - 1)
    requires (Lift(c0, m - 1) << 2) & msk == 0
    requires (Pack(RevComp(v)) << 2) & msk == Pack(RevComp(v)) << 2
    requires Pack(RevComp(w)) == CompIn(r) ^ (Pack(RevComp(v)) << 2)
    ensures RcStep(Pack(RevComp(u)), r, msk) == Pack(RevComp(w))
  {
  }

  /** The packed reverse complement of a window shorter than `m`, shifted once, still fits in `m` symbols. */
  lemma {:induction false} PackRevCompFits(z: seq<Sym>, m: nat, msk: bv32)
    requires AllBases(z) && |z| < m && msk == LowMask(m)
    ensures (Pack(RevComp(z)) << 2) & msk == Pack(RevComp(z)) << 2
  {
    RevCompBases(z);
    PackFits(RevComp(z));
    ShlFitsWider(Pack(RevComp(z)), |z|, m);
  }

  /** Dropping the first base drops the top base of the packed reverse complement. */
  lemma {:induction false} PackRevCompTail(l: seq<Sym>, l1: seq<Sym>, m: nat, c0: Sym)
    requires |l| == m >= 1 && c0 == Comp(l[0]) && l1 == l[1..]
    ensures Pack(RevComp(l)) == Pack(RevComp(l1)) ^ Lift(c0, m - 1)
  {
    RevCompTail(l);
    PackSnocOf(RevComp(l), RevComp(l1), c0, m - 1);
  }

  /** A new base puts its complement at the bottom of the packed reverse complement. */
  lemma PackRevCompSnoc(u: seq<Sym>, r: Sym)
    ensures Pack(RevComp(u + [r])) == CompIn(r) ^ (Pack(RevComp(u)) << 2)
  {
    RevCompSnoc(u, r);
    PackConsComp(RevComp(u + [r]), r, RevComp(u));
  }

  lemma {:induction false} PackSnocOf(u: seq<Sym>, v: seq<Sym>, a: Sym, n: nat)
    requires u == v + [a] && n == |v|
    ensures Pack(u) == Pack(v) ^ Lift(a, n)
  {
    PackSnoc(v, a);
  }

  lemma PackConsComp(w: seq<Sym>, r: Sym, v: seq<Sym>)
    requires w == [Comp(r)] + v
    ensures Pack(w) == CompIn(r) ^ (Pack(v) << 2)
  {
    PackCons(Comp(r), v);
    CompCast(r);
  }

  /** The base that leaves, shifted up once more, lies above the mask. */
  lemma {:induction false} TopLeavesMask(c0: Sym, m: nat, msk: bv32)
    requires m >= 1 && msk == LowMask(m)
    ensures (Lift(c0, m - 1) << 2) & msk == 0
  {
    ShlStep(c0 as bv32, 2 * (m - 1));
    ShlAboveMask(c0 as bv32, m);
  }

  lemma RcWords(p: bv32, p1: bv32, r: Sym, msk: bv32, q: bv32)
    requires (p << 2) & msk == p1 << 2
    requires q == CompIn(r) ^ (p1 << 2)
    ensures RcStep(p, r, msk) == q
  {
  }

  lemma {:induction false} ShlFitsWider(x: bv32, j: nat, m: nat)
    requires FitsSyms(x, j) && j < m
    ensures FitsSyms(x << 2, m)
  {
    ShlFits(x, j);
    FitsWider(x << 2, j + 1, m);
  }

  lemma AllBasesTail(l: seq<Sym>, l1: seq<Sym>)
    requires AllBases(l) && |l| >= 1 && l1 == l[1..]
    ensures AllBases(l1)
  {
    assert forall i :: 0 <= i < |l1| ==> l1[i] == l[i + 1];
  }

  // ---------------------------------------------------------------------------
  // The hash of a k-mer

  /**
   * The forward hash of a k-mer: its last `Width(k)` bases packed with the
   * newest on top, that top base inverted.
   */
  function ForwardHash(k: nat, x: seq<Sym>): bv32
    requires k >= 1
  {
    Anti(Pack(LastN(x, Width(k))), Top(k))
  }

  /**
   * The canonical hash: the smaller of the forward word and the word packed
   * from the reverse complement of the first `Width(k)` bases, both with
   * their top base inverted.
   */
  function CanonicalHash(k: nat, x: seq<Sym>): bv32
    requires k >= 1 && |x| >= Width(k)
  {
    Min(Anti(Pack(LastN(x, Width(k))), Top(k)), Anti(Pack(RevComp(x[..Width(k)])), Top(k)))
  }

  /** The canonical hash of a k-mer is the smaller of the forward hashes of its two strands. */
  lemma CanonicalMinOfStrands(k: nat, x: seq<Sym>)
    requires k >= 1 && |x| == k
    ensures CanonicalHash(k, x) == Min(ForwardHash(k, x), ForwardHash(k, RevComp(x)))
  {
    LastNRevComp(x, Width(k));
  }

  /** A k-mer and its reverse complement have the same canonical hash. */
  lemma CanonicalRevComp(k: nat, x: seq<Sym>)
    requires k >= 1 && |x| == k
    ensures CanonicalHash(k, RevComp(x)) == CanonicalHash(k, x)
  {
    CanonicalMinOfStrands(k, x);
    CanonicalMinOfStrands(k, RevComp(x));
    RevCompInvolution(x);
    MinComm(ForwardHash(k, x), ForwardHash(k, RevComp(x)));
  }

  /** Beyond 16 bases only the last 16 take part in the forward hash. */
  lemma ForwardLast16(k: nat, x: seq<Sym>)
    requires k >= 16 && |x| == k
    ensures ForwardHash(k, x) == ForwardHash(16, x[k - 16..])
  {
  }

  /** Beyond 16 bases the canonical hash only reads the first 16 and the last 16. */
  lemma CanonicalEnds16(k: nat, x: seq<Sym>, y: seq<Sym>)
    requires k >= 16 && |x| == k && |y| == k
    requires x[..16] == y[..16] && x[k - 16..] == y[k - 16..]
    ensures CanonicalHash(k, x) == CanonicalHash(k, y)
  {
  }

  /** Up to 16 bases, distinct k-mers have distinct forward hashes. */
  lemma ForwardInjective(k: nat, x: seq<Sym>, y: seq<Sym>)
    requires 1 <= k <= 16 && |x| == k && |y| == k && AllBases(x) && AllBases(y)
    requires ForwardHash(k, x) == ForwardHash(k, y)
    ensures x == y
  {
    assert LastN(x, Width(k)) == x && LastN(y, Width(k)) == y;
    AntiCancel(Pack(x), Pack(y), Top(k));
    PackInjective(x, y);
  }

  lemma AntiCancel(p: bv32, q: bv32, t: bv32)
    requires Anti(p, t) == Anti(q, t)
    ensures p == q
  {
  }

  /** Packing at most 16 bases loses nothing. */
  lemma {:induction false} PackInjective(u: seq<Sym>, v: seq<Sym>)
    requires AllBases(u) && AllBases(v) && |u| == |v| <= 16 && Pack(u) == Pack(v)
    ensures u == v
    decreases |u|
  {
    if |u| > 0 {
      PackShr(u);
      PackShr(v);
      AllBasesTail(u, u[1..]);
      AllBasesTail(v, v[1..]);
      PackInjective(u[1..], v[1..]);
      PackLow(u);
      PackLow(v);
      CastInjective(u[0], v[0]);
      assert u == [u[0]] + u[1..] && v == [v[0]] + v[1..];
    }
  }

  /** The low two bits of a packing hold its first base. */
  lemma PackLow(w: seq<Sym>)
    requires AllBases(w) && |w| >= 1
    ensures Pack(w) & 3 == w[0] as bv32
  {
    CastBase(w[0]);
    LowBits(Pack(w), w[0] as bv32, Pack(w[1..]));
  }

  lemma LowBits(pw: bv32, c: bv32, p: bv32)
    ensures (pw == c ^ (p << 2) && c < 4) ==> pw & 3 == c
  {
  }

  lemma CastInjective(a: Sym, b: Sym)
    requires a as bv32 == b as bv32
    ensures a == b
  {
  }

  // ---------------------------------------------------------------------------
  // The in-out closures
  //
  // `in_out_mapper_scalar` captures `fw` (and, canonical, `rc`), both zero at
  // the start; each call reads an incoming base `a` and an outgoing base `r`.
  // The forward register holds the last `Width(k)` incoming bases; the
  // reverse-complement register the reverse complement of the last
  // `Width(k)` outgoing ones.

  /** One forward in-out step: the window of the incoming bases moves by one, the outgoing base is ignored. */
  lemma InOutFwStep(al: AntiLexHasher, adds: seq<Sym>, a: Sym)
    requires al.k >= 1 && al == New(al.canonical, al.k) && AllBases(adds) && a < 4
    ensures FwStep(Pack(Window(adds, Width(al.k))), a, al.shift) == Pack(Window(adds + [a], Width(al.k)))
  {
    FwStepSpec(adds, a, Width(al.k));
  }

  /** One canonical in-out step of the reverse-complement register. */
  lemma InOutRcStep(al: AntiLexHasher, removes: seq<Sym>, r: Sym)
    requires al.k >= 1 && al == New(al.canonical, al.k) && AllBases(removes)
    ensures RcStep(Pack(RevComp(LastN(removes, Width(al.k)))), r, al.mask)
      == Pack(RevComp(LastN(removes + [r], Width(al.k))))
  {
    RcStepSpec(removes, r, Width(al.k), al.mask);
  }

  /**
   * When the incoming stream ends with the k-mer `x`, the forward output is
   * the forward hash of `x`.
   */
  lemma InOutForwardHash(al: AntiLexHasher, adds: seq<Sym>, x: seq<Sym>)
    requires al.k >= 1 && al == New(al.canonical, al.k)
    requires |x| == al.k <= |adds| && x == adds[|adds| - al.k..]
    ensures Anti(Pack(Window(adds, Width(al.k))), al.anti) == ForwardHash(al.k, x)
  {
    WindowOfSuffix(adds, x, Width(al.k));
  }

  /**
   * When the outgoing stream lags the incoming one by `CanonicalDelay(k)`
   * and the incoming one has reached the end of the k-mer `x`, the canonical
   * output is the canonical hash of `x`.
   */
  lemma InOutCanonicalHash(al: AntiLexHasher, s: seq<Sym>, t: nat)
    requires al.k >= 1 && al == New(al.canonical, al.k) && al.k <= t + 1 <= |s|
    ensures Min(Anti(Pack(Window(s[..t + 1], Width(al.k))), al.anti),
                Anti(Pack(RevComp(LastN((Zeros(CanonicalDelay(al.k)) + s)[..t + 1], Width(al.k)))), al.anti))
      == CanonicalHash(al.k, s[t + 1 - al.k..t + 1])
  {
    var x := s[t + 1 - al.k..t + 1];
    WindowOfSuffix(s[..t + 1], x, Width(al.k));
    LaggedLastN(s, CanonicalDelay(al.k), Width(al.k), al.k, t);
  }

  // ---------------------------------------------------------------------------
  // The prefix closures
  //
  // The forward `mapper` derives its own `shift` and `anti` from the length
  // `n` of the sequence it is created for. The canonical `mapper` starts
  // from one base, grows `shift`, `anti` and `mask` by one base per call
  // while `(i + 1) * 2 < 32`, shifts `fw` down once `i * 2 >= 32`, and stops
  // updating `rc` from then on.

  /**
   * The width the forward `mapper` works with for a sequence of length `n`.
   * For `n == 0` the wrapping product `2 * (n - 1)` and the shift taken
   * modulo 32 give the values of width 16; such a mapper is never called.
   */
  function MapperWidth(n: nat): (w: nat)
    ensures 1 <= w <= 16
  {
    if n == 0 then 16 else Width(n)
  }

  /** The forward `mapper`'s `shift`: `2 * (n - 1)`, or 30 once `2 * n > 32`. */
  function MapperShift(n: nat): nat
  {
    2 * (MapperWidth(n) - 1)
  }

  /** The forward `mapper`'s `anti`: the two bits at `MapperShift(n)`. */
  function MapperAnti(n: nat): bv32
  {
    Shl(3, MapperShift(n))
  }

  /** For a non-empty sequence the forward `mapper` uses the constructor's values for `k = n`. */
  lemma MapperMatchesNew(n: nat)
    requires n >= 1
    ensures MapperShift(n) == New(false, n).shift && MapperAnti(n) == New(false, n).anti
  {
  }

  /** After the whole sequence, the forward `mapper` returns the forward hash of it, with `k = n`. */
  lemma MapperForwardHash(x: seq<Sym>)
    requires |x| >= 1
    ensures Anti(Pack(Window(x, MapperWidth(|x|))), MapperAnti(|x|)) == ForwardHash(|x|, x)
  {
    WindowFull(x, Width(|x|));
  }

  /** The canonical `mapper`'s `shift` before call `i`: two bits per call, at most 30. */
  function PrefixShift(i: nat): nat
  {
    2 * (Width(i + 1) - 1)
  }

  /** The canonical `mapper`'s forward register, extended by base `a` at call `i == |ins|`. */
  lemma PrefixFwStep(ins: seq<Sym>, a: Sym, fw: bv32)
    requires AllBases(ins) && a < 4 && fw == Pack(LastN(ins, 16))
    ensures PutTop(if 2 * |ins| >= 32 then fw >> 2 else fw, a, PrefixShift(|ins|)) == Pack(LastN(ins + [a], 16))
  {
    if |ins| >= 16 {
      PrefixFwFull(ins, a, fw);
    } else {
      PrefixFwShort(ins, a, fw);
    }
  }

  lemma PrefixFwShort(ins: seq<Sym>, a: Sym, fw: bv32)
    requires |ins| < 16 && fw == Pack(LastN(ins, 16))
    ensures PutTop(fw, a, PrefixShift(|ins|)) == Pack(LastN(ins + [a], 16))
  {
    assert LastN(ins, 16) == ins && LastN(ins + [a], 16) == ins + [a];
    PutTopSnoc(ins, a, fw, PrefixShift(|ins|));
  }

  /** A base put on top of a packing at bit `2 * |ins|` extends the packing. */
  lemma PutTopSnoc(ins: seq<Sym>, a: Sym, fw: bv32, shift: nat)
    requires fw == Pack(ins) && shift == 2 * |ins|
    ensures PutTop(fw, a, shift) == Pack(ins + [a])
  {
    PackSnoc(ins, a);
  }

  lemma PrefixFwFull(ins: seq<Sym>, a: Sym, fw: bv32)
    requires AllBases(ins) && a < 4 && |ins| >= 16 && fw == Pack(LastN(ins, 16))
    ensures PutTop(fw >> 2, a, PrefixShift(|ins|)) == Pack(LastN(ins + [a], 16))
  {
    WindowFull(ins, 16);
    WindowFull(ins + [a], 16);
    FwStepSpec(ins, a, 16);
  }

  /** The canonical `mapper`'s reverse-complement register at call `i == |ins| < 16`. */
  lemma PrefixRcStep(ins: seq<Sym>, a: Sym, rc: bv32, mask: bv32)
    requires AllBases(ins) && |ins| < 16 && rc == Pack(RevComp(ins)) && mask == LowMask(|ins| + 1)
    ensures RcStep(rc, a, mask) == Pack(RevComp(ins + [a]))
  {
    RcStepSpec(ins, a, |ins| + 1, mask);
  }

  /** The reverse-complement register and the bases it covers: the first `Width(i)`. */
  lemma PrefixRcCovers(ins: seq<Sym>, a: Sym)
    ensures |ins| < 16 ==> (ins + [a])[..Width(|ins| + 1)] == ins + [a] && ins[..Width(|ins|)] == ins
    ensures |ins| >= 16 ==> (ins + [a])[..Width(|ins| + 1)] == ins[..Width(|ins|)]
  {
  }

  /** `anti <<= 2` and `mask = (mask << 2) | 3` move one base up while `(i + 1) * 2 < 32`. */
  lemma PrefixGrow(i: nat, anti: bv32, mask: bv32)
    requires (i + 1) * 2 < 32 && anti == Top(i + 1) && mask == LowMask(Width(i + 1))
    ensures PrefixShift(i) + 2 == PrefixShift(i + 1)
    ensures anti << 2 == Top(i + 2)
    ensures (mask << 2) | 3 == LowMask(Width(i + 2))
  {
    TopGrow(i, anti);
    MaskGrow(i, mask);
  }

  lemma TopGrow(i: nat, anti: bv32)
    requires i < 15 && anti == Top(i + 1)
    ensures anti << 2 == Top(i + 2)
  {
    var n := 2 * (Width(i + 1) - 1);
    assert 2 * (Width(i + 2) - 1) == n + 2;
    TopStep(n, anti);
  }

  lemma TopStep(n: nat, anti: bv32)
    requires anti == Shl(3, n)
    ensures anti << 2 == Shl(3, n + 2)
  {
    ShlStep(3, n);
  }

  lemma MaskGrow(i: nat, mask: bv32)
    requires i < 15 && mask == LowMask(Width(i + 1))
    ensures (mask << 2) | 3 == LowMask(Width(i + 2))
  {
    var j := Width(i + 1);
    assert Width(i + 2) == j + 1;
    MaskStepUp(j, mask);
  }

  lemma MaskStepUp(j: nat, mask: bv32)
    requires mask == LowMask(j)
    ensures (mask << 2) | 3 == LowMask(j + 1)
  {
    LowMaskUnfold(j);
  }

  /** Once `(i + 1) * 2 >= 32` the shift, `anti` and `mask` have reached their final values. */
  lemma PrefixSteady(i: nat)
    requires (i + 1) * 2 >= 32
    ensures PrefixShift(i) == PrefixShift(i + 1) && Top(i + 1) == Top(i + 2) && Width(i + 1) == Width(i + 2)
  {
  }

  /**
   * The canonical `mapper` at call `i == k - 1` uses the constructor's
   * `shift`, `anti` and `mask` for `k`.
   */
  lemma PrefixMatchesNew(k: nat)
    requires k >= 1
    ensures PrefixShift(k - 1) == New(true, k).shift && Top(k) == New(true, k).anti
    ensures LowMask(Width(k)) == New(true, k).mask
  {
  }

  /** The canonical `mapper`'s output after the prefix `x` is the canonical hash of `x` with `k = |x|`. */
  lemma PrefixCanonicalHash(x: seq<Sym>)
    requires |x| >= 1
    ensures Min(Anti(Pack(LastN(x, 16)), Top(|x|)), Anti(Pack(RevComp(x[..Width(|x|)])), Top(|x|)))
      == CanonicalHash(|x|, x)
  {
    assert LastN(x, 16) == LastN(x, Width(|x|));
  }

  /**
   * The canonical `mapper`'s captured state before call `i == |ins|`:
   * `shift`, `anti` and `mask` for `i + 1` bases, the last 16 bases forward
   * in `fw`, and the reverse complement of the first 16 in `rc`.
   */
  predicate PrefixState(ins: seq<Sym>, i: nat, fw: bv32, rc: bv32, shift: nat, anti: bv32, mask: bv32)
  {
    AllBases(ins) && i == |ins| && shift == PrefixShift(i) && anti == Top(i + 1) &&
    mask == LowMask(Width(i + 1)) && fw == Pack(LastN(ins, 16)) && rc == Pack(RevComp(ins[..Width(i)]))
  }

  /** The canonical `mapper`'s forward register at call `i`: shifted down once the word is full, then `a` on top. */
  function PrefixFw(fw: bv32, a: Sym, i: nat, shift: nat): bv32
  {
    PutTop(if 2 * i >= 32 then fw >> 2 else fw, a, shift)
  }

  /** The canonical `mapper`'s reverse-complement register at call `i`: frozen once the word is full. */
  function PrefixRc(rc: bv32, a: Sym, i: nat, mask: bv32): bv32
  {
    if 2 * i < 32 then RcStep(rc, a, mask) else rc
  }

  /** While `(i + 1) * 2 < 32`, each call moves the canonical `mapper`'s `shift` up one base. */
  function GrowShift(i: nat, shift: nat): nat
  {
    if (i + 1) * 2 < 32 then shift + 2 else shift
  }

  /** `anti <<= 2` while `(i + 1) * 2 < 32`. */
  function GrowAnti(i: nat, anti: bv32): bv32
  {
    if (i + 1) * 2 < 32 then anti << 2 else anti
  }

  /** `mask = (mask << 2) | 3` while `(i + 1) * 2 < 32`. */
  function GrowMask(i: nat, mask: bv32): bv32
  {
    if (i + 1) * 2 < 32 then (mask << 2) | 3 else mask
  }

  /**
   * One call of the canonical `mapper` with base `a`: the state moves on to
   * `ins + [a]`, and the value returned is the canonical hash of
   * `ins + [a]` with `k = |ins| + 1`.
   */
  lemma {:induction false} PrefixCall(ins: seq<Sym>, i: nat, a: Sym, fw: bv32, rc: bv32, shift: nat, anti: bv32, mask: bv32,
                                      fw': bv32, rc': bv32, shift': nat, anti': bv32, mask': bv32)
    requires PrefixState(ins, i, fw, rc, shift, anti, mask) && a < 4
    requires fw' == PrefixFw(fw, a, i, shift)
    requires rc' == PrefixRc(rc, a, i, mask)
    requires shift' == GrowShift(i, shift) && anti' == GrowAnti(i, anti) && mask' == GrowMask(i, mask)
    ensures PrefixState(ins + [a], i + 1, fw', rc', shift', anti', mask')
    ensures Min(Anti(fw', anti), Anti(rc', anti)) == CanonicalHash(|ins + [a]|, ins + [a])
  {
    PrefixCallFw(ins, i, a, fw, shift, fw');
    PrefixCallRc(ins, i, a, rc, mask, rc');
    PrefixCallGrow(i, i + 1, shift, anti, mask);
    AllBasesSnoc(ins, a);
    PrefixCanonicalHash(ins + [a]);
  }

  lemma {:induction false} PrefixCallFw(ins: seq<Sym>, i: nat, a: Sym, fw: bv32, shift: nat, fw': bv32)
    requires AllBases(ins) && a < 4 && i == |ins| && shift == PrefixShift(i) && fw == Pack(LastN(ins, 16))
    requires fw' == PrefixFw(fw, a, i, shift)
    ensures fw' == Pack(LastN(ins + [a], 16))
  {
    PrefixFwStep(ins, a, fw);
  }

  lemma {:induction false} PrefixCallRc(ins: seq<Sym>, i: nat, a: Sym, rc: bv32, mask: bv32, rc': bv32)
    requires AllBases(ins) && i == |ins| && mask == LowMask(Width(i + 1)) && rc == Pack(RevComp(ins[..Width(i)]))
    requires rc' == PrefixRc(rc, a, i, mask)
    ensures rc' == Pack(RevComp((ins + [a])[..Width(i + 1)]))
  {
    PrefixRcCovers(ins, a);
    if 2 * i < 32 {
      assert mask == LowMask(|ins| + 1);
      PrefixRcStep(ins, a, rc, mask);
    }
  }

  lemma {:induction false} PrefixCallGrow(i: nat, j: nat, shift: nat, anti: bv32, mask: bv32)
    requires j == i + 1 && shift == PrefixShift(i) && anti == Top(i + 1) && mask == LowMask(Width(i + 1))
    ensures GrowShift(i, shift) == PrefixShift(j) && GrowAnti(i, anti) == Top(j + 1)
    ensures GrowMask(i, mask) == LowMask(Width(j + 1))
  {
    assert j + 1 == i + 2;
    if (i + 1) * 2 < 32 {
      PrefixGrow(i, anti, mask);
    } else {
      PrefixSteady(i);
    }
  }

  // ---------------------------------------------------------------------------
  // Eight lanes at once

  /** One lane of the forward SIMD step: `(fw >> 2) ^ (a << shift)`. */
  function FwLane(fw: bv32, a: bv32, shift: nat): bv32
  {
    (fw >> 2) ^ Shl(a, shift)
  }

  /** One lane of the reverse-complement SIMD step: `((rc << 2) & mask) ^ (r ^ 2)`. */
  function RcLane(rc: bv32, r: bv32, mask: bv32): bv32
  {
    ((rc << 2) & mask) ^ (r ^ 2)
  }

  function SimdFwStep(fw: seq<bv32>, a: seq<bv32>, shift: nat): seq<bv32>
    requires |fw| == |a|
  {
    seq(|fw|, l requires 0 <= l < |fw| => FwLane(fw[l], a[l], shift))
  }

  function SimdRcStep(rc: seq<bv32>, r: seq<bv32>, mask: bv32): seq<bv32>
    requires |rc| == |r|
  {
    seq(|rc|, l requires 0 <= l < |rc| => RcLane(rc[l], r[l], mask))
  }

  /** `fw ^ S::splat(anti)`. */
  function SimdAnti(v: seq<bv32>, anti: bv32): seq<bv32>
  {
    seq(|v|, l requires 0 <= l < |v| => Anti(v[l], anti))
  }

  /** Lane-wise `u32` minimum. */
  function SimdMin(u: seq<bv32>, v: seq<bv32>): seq<bv32>
    requires |u| == |v|
  {
    seq(|u|, l requires 0 <= l < |u| => Min(u[l], v[l]))
  }

  /**
   * Lane `l` of the eight-lane in-out closure is the scalar in-out closure
   * on that lane's registers and bases.
   */
  lemma SimdLane(fw: seq<bv32>, rc: seq<bv32>, a: seq<bv32>, r: seq<bv32>, shift: nat, anti: bv32, mask: bv32, l: int)
    requires |fw| == 8 && |rc| == 8 && |a| == 8 && |r| == 8 && 0 <= l < 8 && a[l] < 256 && r[l] < 256
    ensures |SimdFwStep(fw, a, shift)| == 8 && |SimdRcStep(rc, r, mask)| == 8
    ensures SimdFwStep(fw, a, shift)[l] == FwStep(fw[l], a[l] as Sym, shift)
    ensures SimdRcStep(rc, r, mask)[l] == RcStep(rc[l], r[l] as Sym, mask)
    ensures SimdAnti(SimdFwStep(fw, a, shift), anti)[l] == Anti(FwStep(fw[l], a[l] as Sym, shift), anti)
    ensures SimdMin(SimdAnti(SimdFwStep(fw, a, shift), anti), SimdAnti(SimdRcStep(rc, r, mask), anti))[l]
      == Min(Anti(FwStep(fw[l], a[l] as Sym, shift), anti), Anti(RcStep(rc[l], r[l] as Sym, mask), anti))
  {
    FwLaneAt(fw, a, shift, l);
    RcLaneAt(rc, r, mask, l);
    MinLaneAt(SimdAnti(SimdFwStep(fw, a, shift), anti), SimdAnti(SimdRcStep(rc, r, mask), anti), l);
  }

  lemma FwLaneAt(fw: seq<bv32>, a: seq<bv32>, shift: nat, l: int)
    requires |fw| == |a| && 0 <= l < |fw| && a[l] < 256
    ensures SimdFwStep(fw, a, shift)[l] == FwStep(fw[l], a[l] as Sym, shift)
  {
    LaneByte(a[l]);
    FwLaneWord(fw[l], a[l], a[l] as Sym, shift);
  }

  lemma FwLaneWord(x: bv32, a: bv32, b: Sym, shift: nat)
    requires a == b as bv32
    ensures FwLane(x, a, shift) == FwStep(x, b, shift)
  {
  }

  lemma RcLaneAt(rc: seq<bv32>, r: seq<bv32>, mask: bv32, l: int)
    requires |rc| == |r| && 0 <= l < |rc| && r[l] < 256
    ensures SimdRcStep(rc, r, mask)[l] == RcStep(rc[l], r[l] as Sym, mask)
  {
    LaneByte(r[l]);
  }

  lemma MinLaneAt(u: seq<bv32>, v: seq<bv32>, l: int)
    requires |u| == |v| && 0 <= l < |u|
    ensures SimdMin(u, v)[l] == Min(u[l], v[l])
  {
  }

  lemma LaneByte(x: bv32)
    requires x < 256
    ensures (x as Sym) as bv32 == x
  {
  }
}
