/**
 * The `KmerHasher` interface over both hasher families: the closures each
 * hasher hands out, held as objects whose fields are the captured
 * registers, and the default methods that drive them over a sequence.
 */
module SeqHash {
  import opened Bits
  import opened Symbols
  import NtHash
  import AntiLex

  /**
   * A k-mer hasher: a character hasher (`NtHasher`, `MulHasher`) together
   * with its `k`, or an `AntiLexHasher`, which stores its own `k`.
   */
  datatype Hasher = Char(ch: NtHash.CharHasher, k: nat) | Lex(al: AntiLex.AntiLexHasher)

  /** The hasher was built by its constructor for its `k`. */
  ghost predicate HasherValid(h: Hasher)
  {
    match h
    case Char(ch, k) => NtHash.ValidFor(ch, k)
    case Lex(al) => al.k >= 1 && al == AntiLex.New(al.canonical, al.k)
  }

  /** `k()`. */
  function K(h: Hasher): nat
  {
    match h
    case Char(_, k) => k
    case Lex(al) => al.k
  }

  /** `is_canonical()`: whether the hash is invariant under reverse complement. */
  function IsCanonical(h: Hasher): bool
  {
    match h
    case Char(ch, _) => ch.canonical
    case Lex(al) => al.canonical
  }

  /**
   * `delay()`: how far the outgoing symbol lags the incoming one. `k - 1`
   * by default; the canonical `AntiLexHasher` only remembers 16 outgoing
   * bases, so they may lag by `k - 16`.
   */
  function Delay(h: Hasher): (d: nat)
    requires K(h) >= 1
    ensures d <= K(h) - 1
    ensures h.Char? || !h.al.canonical ==> d == K(h) - 1
    ensures h.Lex? && h.al.canonical ==> d + AntiLex.Width(K(h)) == K(h)
  {
    if h.Lex? && h.al.canonical then AntiLex.CanonicalDelay(h.al.k) else K(h) - 1
  }

  /** The symbol is one the hasher takes: a packed base, or any byte for `MulHasher`. */
  predicate AcceptsSym(h: Hasher, a: Sym)
  {
    match h
    case Char(ch, _) => NtHash.Accepts(ch, a)
    case Lex(_) => a < 4
  }

  predicate Accepts(h: Hasher, s: seq<Sym>)
  {
    match h
    case Char(ch, _) => NtHash.AcceptsAll(ch, s)
    case Lex(_) => AllBases(s)
  }

  // ---------------------------------------------------------------------------
  // What the hashes are

  /** The hash of one k-mer, computed from the k-mer alone. */
  function KmerHash(h: Hasher, x: seq<Sym>): bv32
    requires Accepts(h, x) && K(h) >= 1 && |x| == K(h)
  {
    match h
    case Char(ch, _) => NtHash.OnePassHash(ch, x)
    case Lex(al) => if al.canonical then AntiLex.CanonicalHash(al.k, x) else AntiLex.ForwardHash(al.k, x)
  }

  /**
   * The value the prefix closure made for a sequence of length `n` returns
   * after the non-empty prefix `p`. The forward `AntiLexHasher` places its
   * bases for the whole length `n`; the other hashers hash the prefix as a
   * k-mer of its own length.
   */
  function PrefixHash(h: Hasher, n: nat, p: seq<Sym>): bv32
    requires Accepts(h, p) && |p| >= 1
  {
    match h
    case Char(ch, _) => NtHash.OnePassHash(ch, p)
    case Lex(al) =>
      if al.canonical then AntiLex.CanonicalHash(|p|, p)
      else AntiLex.Anti(AntiLex.Pack(Window(p, AntiLex.MapperWidth(n))), AntiLex.MapperAnti(n))
  }

  /** The value an in-out closure returns after the incoming symbols `adds` and the outgoing `removes`. */
  function InOutValue(h: Hasher, adds: seq<Sym>, removes: seq<Sym>): bv32
    requires K(h) >= 1 && Accepts(h, adds) && Accepts(h, removes)
  {
    match h
    case Char(ch, k) =>
      WindowAccepted(h, adds, k);
      NtHash.OnePassHash(ch, Window(adds, k))
    case Lex(al) =>
      var w := AntiLex.Width(al.k);
      var f := AntiLex.Anti(AntiLex.Pack(Window(adds, w)), al.anti);
      if al.canonical then AntiLex.Min(f, AntiLex.Anti(AntiLex.Pack(RevComp(LastN(removes, w))), al.anti))
      else f
  }

  /** `KmerCount(n, k)`: how many k-mers a sequence of `n` symbols has. */
  function KmerCount(n: nat, k: nat): nat
  {
    if n + 1 >= k then n + 1 - k else 0
  }

  /** The hashes of all k-mers of `s`, in order: the naive reference of the streaming hash. */
  function KmerStream(h: Hasher, s: seq<Sym>): (out: seq<bv32>)
    requires K(h) >= 1 && Accepts(h, s)
    ensures |out| == KmerCount(|s|, K(h))
  {
    seq(KmerCount(|s|, K(h)), j requires 0 <= j < KmerCount(|s|, K(h)) =>
      SliceAccepted(h, s, j, j + K(h)); KmerHash(h, s[j..j + K(h)]))
  }

  /** One more symbol adds the hash of the k-mer it ends to the stream. */
  lemma StreamSnoc(h: Hasher, s: seq<Sym>, t: nat, k: nat)
    requires k == K(h) && k >= 1 && Accepts(h, s) && k <= t + 1 <= |s|
    ensures Accepts(h, s[..t]) && Accepts(h, s[..t + 1]) && Accepts(h, s[t + 1 - k..t + 1])
    ensures KmerStream(h, s[..t + 1]) == KmerStream(h, s[..t]) + [KmerHash(h, s[t + 1 - k..t + 1])]
  {
    SliceAccepted(h, s, 0, t);
    SliceAccepted(h, s, 0, t + 1);
    SliceAccepted(h, s, t + 1 - k, t + 1);
    var p, q := s[..t + 1], s[..t];
    assert q == p[..|q|];
    var l, r := KmerStream(h, p), KmerStream(h, q);
    forall j | 0 <= j < |r|
      ensures l[j] == r[j]
    {
      StreamExtendAt(h, p, q, j, k);
    }
    StreamAtK(h, p, t + 1 - k, k);
    PrefixSlice(s, p, t + 1 - k, t + 1);
    SnocExtensional(l, r, KmerHash(h, s[t + 1 - k..t + 1]));
  }

  /** A sequence one longer than `r` that agrees with it and ends in `x` is `r + [x]`. */
  lemma SnocExtensional(l: seq<bv32>, r: seq<bv32>, x: bv32)
    requires |l| == |r| + 1 && l[|r|] == x
    requires forall j :: 0 <= j < |r| ==> l[j] == r[j]
    ensures l == r + [x]
  {
  }

  /** The k-mers of a prefix `q` of `p` are the first k-mers of `p`. */
  lemma {:induction false} StreamExtendAt(h: Hasher, p: seq<Sym>, q: seq<Sym>, j: nat, k: nat)
    requires k == K(h) && k >= 1 && Accepts(h, p) && Accepts(h, q) && |q| <= |p| && q == p[..|q|]
    requires j < KmerCount(|q|, k)
    ensures KmerStream(h, p)[j] == KmerStream(h, q)[j]
  {
    StreamAtK(h, p, j, k);
    StreamAtK(h, q, j, k);
    PrefixSlice(p, q, j, j + k);
  }

  /** No k-mer is complete before `k` symbols have arrived. */
  lemma StreamEmpty(h: Hasher, s: seq<Sym>)
    requires K(h) >= 1 && Accepts(h, s) && |s| <= K(h) - 1
    ensures KmerStream(h, s) == []
  {
  }

  function Reversed(v: seq<bv32>): (r: seq<bv32>)
    ensures |r| == |v| && forall j :: 0 <= j < |v| ==> r[j] == v[|v| - 1 - j]
  {
    seq(|v|, j requires 0 <= j < |v| => v[|v| - 1 - j])
  }

  // ---------------------------------------------------------------------------
  // Symbols taken

  lemma WindowAccepted(h: Hasher, y: seq<Sym>, m: nat)
    requires Accepts(h, y)
    ensures Accepts(h, Window(y, m))
  {
  }

  lemma SliceAccepted(h: Hasher, s: seq<Sym>, i: nat, j: nat)
    requires Accepts(h, s) && i <= j <= |s|
    ensures Accepts(h, s[i..j])
  {
    assert forall t :: 0 <= t < j - i ==> s[i..j][t] == s[i + t];
  }

  lemma SnocAccepted(h: Hasher, y: seq<Sym>, a: Sym)
    requires Accepts(h, y) && AcceptsSym(h, a)
    ensures Accepts(h, y + [a])
  {
    assert forall t :: 0 <= t < |y| ==> (y + [a])[t] == y[t];
  }

  /** The lagged stream of outgoing symbols is taken by every hasher. */
  lemma LaggedAccepted(h: Hasher, s: seq<Sym>, d: nat, t: nat)
    requires Accepts(h, s) && t <= |s| + d
    ensures Accepts(h, (Zeros(d) + s)[..t])
  {
    var z := (Zeros(d) + s)[..t];
    forall i | 0 <= i < t
      ensures AcceptsSym(h, z[i])
    {
      if i >= d {
        assert z[i] == s[i - d];
      }
    }
  }

  lemma RevCompAccepted(h: Hasher, x: seq<Sym>)
    requires HasherValid(h) && Accepts(h, x)
    ensures Accepts(h, RevComp(x))
  {
    match h
    case Char(ch, k) => NtHash.AcceptsRevComp(ch, k, x);
    case Lex(_) => RevCompBases(x);
  }

  // ---------------------------------------------------------------------------
  // Properties of the hashes

  /**
   * On a sequence of exactly `k` symbols the prefix closure ends at the
   * k-mer hash: `hash_kmer` of a k-mer agrees with the streaming hash of
   * that k-mer.
   */
  lemma PrefixHashOfKmer(h: Hasher, x: seq<Sym>)
    requires HasherValid(h) && Accepts(h, x) && |x| == K(h)
    ensures PrefixHash(h, |x|, x) == KmerHash(h, x)
  {
    if h.Lex? && !h.al.canonical {
      AntiLex.MapperForwardHash(x);
    }
  }

  /**
   * The streaming hash of every k-mer equals the hash of that k-mer on its
   * own: entry `j` of the stream is what the prefix closure, made for a
   * sequence of length `k`, returns after the k-mer starting at `j`.
   */
  lemma {:induction false} StreamIsKmerHashes(h: Hasher, s: seq<Sym>, k: nat)
    requires HasherValid(h) && Accepts(h, s) && k == K(h)
    ensures forall j {:trigger KmerStream(h, s)[j]} :: 0 <= j < KmerCount(|s|, k) ==>
      KmerStream(h, s)[j] == PrefixHash(h, k, s[j..j + k])
  {
    forall j | 0 <= j < KmerCount(|s|, k)
      ensures KmerStream(h, s)[j] == PrefixHash(h, k, s[j..j + k])
    {
      StreamAtK(h, s, j, k);
      PrefixHashOfKmer(h, s[j..j + k]);
    }
  }

  /**
   * Once `t + 1 >= k` symbols have come in, and the outgoing symbols lag
   * them by `Delay(h)`, the in-out value is the hash of the k-mer ending at
   * position `t`.
   */
  lemma {:induction false} InOutValueIsKmerHash(h: Hasher, s: seq<Sym>, t: nat, k: nat)
    requires HasherValid(h) && Accepts(h, s) && k == K(h) && k <= t + 1 <= |s|
    ensures Accepts(h, s[..t + 1]) && Accepts(h, (Zeros(Delay(h)) + s)[..t + 1])
    ensures Accepts(h, s[t + 1 - k..t + 1])
    ensures InOutValue(h, s[..t + 1], (Zeros(Delay(h)) + s)[..t + 1]) == KmerHash(h, s[t + 1 - k..t + 1])
  {
    SliceAccepted(h, s, 0, t + 1);
    LaggedAccepted(h, s, Delay(h), t + 1);
    SliceAccepted(h, s, t + 1 - k, t + 1);
    if h.Char? {
      CharInOutIsKmerHash(h, s[..t + 1], (Zeros(Delay(h)) + s)[..t + 1], s[t + 1 - k..t + 1], k);
    } else if h.al.canonical {
      AntiLex.InOutCanonicalHash(h.al, s, t);
    } else {
      AntiLex.InOutForwardHash(h.al, s[..t + 1], s[t + 1 - k..t + 1]);
    }
  }

  /** For the character hashers the in-out value only depends on the last `k` incoming symbols. */
  lemma {:induction false} CharInOutIsKmerHash(h: Hasher, adds: seq<Sym>, removes: seq<Sym>, x: seq<Sym>, k: nat)
    requires h.Char? && k == h.k && k >= 1 && Accepts(h, adds) && Accepts(h, removes) && Accepts(h, x)
    requires |x| == k <= |adds| && x == adds[|adds| - k..]
    ensures InOutValue(h, adds, removes) == KmerHash(h, x)
  {
    WindowOfSuffix(adds, x, k);
  }

  /** A canonical hasher gives a k-mer and its reverse complement the same hash. */
  lemma KmerHashRevComp(h: Hasher, x: seq<Sym>)
    requires HasherValid(h) && IsCanonical(h) && Accepts(h, x) && |x| == K(h)
    ensures Accepts(h, RevComp(x))
    ensures KmerHash(h, RevComp(x)) == KmerHash(h, x)
  {
    RevCompAccepted(h, x);
    match h
    case Char(ch, k) => NtHash.CanonicalRevComp(ch, k, x);
    case Lex(al) => AntiLex.CanonicalRevComp(al.k, x);
  }

  /** A k-mer of the reverse complement is the reverse complement of the mirrored k-mer. */
  lemma RevCompSlice(s: seq<Sym>, j: nat, k: nat, jm: nat)
    requires jm + k + j == |s|
    ensures RevComp(s)[j..j + k] == RevComp(s[jm..jm + k])
  {
    var l, r := RevComp(s)[j..j + k], RevComp(s[jm..jm + k]);
    forall i | 0 <= i < k
      ensures l[i] == r[i]
    {
      assert s[jm..jm + k][k - 1 - i] == s[|s| - 1 - (j + i)];
    }
  }

  /**
   * For a canonical hasher, the k-mer hashes of the reverse complement of
   * a sequence are those of the sequence, in reverse order.
   */
  lemma {:induction false} StreamRevComp(h: Hasher, s: seq<Sym>)
    requires HasherValid(h) && IsCanonical(h) && Accepts(h, s)
    ensures Accepts(h, RevComp(s))
    ensures KmerStream(h, RevComp(s)) == Reversed(KmerStream(h, s))
  {
    RevCompAccepted(h, s);
    var l, r := KmerStream(h, RevComp(s)), Reversed(KmerStream(h, s));
    forall j | 0 <= j < |l|
      ensures l[j] == r[j]
    {
      StreamRevCompAt(h, s, j, K(h));
    }
  }

  lemma {:induction false} StreamRevCompAt(h: Hasher, s: seq<Sym>, j: nat, k: nat)
    requires HasherValid(h) && IsCanonical(h) && Accepts(h, s) && Accepts(h, RevComp(s))
    requires k == K(h) && j < KmerCount(|s|, k)
    ensures KmerStream(h, RevComp(s))[j] == KmerStream(h, s)[KmerCount(|s|, k) - 1 - j]
  {
    var jm := MirrorIndex(|s|, k, j);
    StreamMirror(h, s, j, jm, k);
  }

  /** The k-mer at `j` counted from the end starts at `n - j - k`. */
  function MirrorIndex(n: nat, k: nat, j: nat): (jm: nat)
    requires k >= 1 && j < KmerCount(n, k)
    ensures jm == KmerCount(n, k) - 1 - j && jm + k + j == n
  {
    n - j - k
  }

  /** Entry `j` of the reverse complement's stream is entry `jm` of the stream, mirrored. */
  lemma {:induction false} StreamMirror(h: Hasher, s: seq<Sym>, j: nat, jm: nat, k: nat)
    requires HasherValid(h) && IsCanonical(h) && Accepts(h, s) && Accepts(h, RevComp(s))
    requires k == K(h) && jm + k + j == |s| && k >= 1
    ensures jm < KmerCount(|s|, k) && j < KmerCount(|RevComp(s)|, k)
    ensures KmerStream(h, RevComp(s))[j] == KmerStream(h, s)[jm]
  {
    StreamAtK(h, s, jm, k);
    StreamAtK(h, RevComp(s), j, k);
    MirroredKmer(h, s, j, jm, k);
  }

  /** The k-mer at `j` of the reverse complement hashes like the mirrored k-mer at `jm`. */
  lemma {:induction false} MirroredKmer(h: Hasher, s: seq<Sym>, j: nat, jm: nat, k: nat)
    requires HasherValid(h) && IsCanonical(h) && Accepts(h, s) && Accepts(h, RevComp(s))
    requires k == K(h) && jm + k + j == |s| && k >= 1
    ensures Accepts(h, RevComp(s)[j..j + k]) && Accepts(h, s[jm..jm + k])
    ensures KmerHash(h, RevComp(s)[j..j + k]) == KmerHash(h, s[jm..jm + k])
  {
    SliceAccepted(h, s, jm, jm + k);
    SliceAccepted(h, RevComp(s), j, j + k);
    RevCompSlice(s, j, k, jm);
    MirrorHash(h, s[jm..jm + k], RevComp(s)[j..j + k]);
  }

  lemma MirrorHash(h: Hasher, x: seq<Sym>, y: seq<Sym>)
    requires HasherValid(h) && IsCanonical(h) && Accepts(h, x) && |x| == K(h) && y == RevComp(x)
    ensures Accepts(h, y) && KmerHash(h, y) == KmerHash(h, x)
  {
    KmerHashRevComp(h, x);
  }

  lemma StreamAt(h: Hasher, s: seq<Sym>, j: nat)
    requires K(h) >= 1 && Accepts(h, s) && j < KmerCount(|s|, K(h))
    ensures Accepts(h, s[j..j + K(h)])
    ensures KmerStream(h, s)[j] == KmerHash(h, s[j..j + K(h)])
  {
    SliceAccepted(h, s, j, j + K(h));
  }

  /** `StreamAt` with the k-mer length passed in. */
  lemma StreamAtK(h: Hasher, s: seq<Sym>, j: nat, k: nat)
    requires k == K(h) && k >= 1 && Accepts(h, s) && j < KmerCount(|s|, k)
    ensures Accepts(h, s[j..j + k])
    ensures KmerStream(h, s)[j] == KmerHash(h, s[j..j + k])
  {
    StreamAt(h, s, j);
  }

  // ---------------------------------------------------------------------------
  // The prefix closure

  /**
   * The closure `mapper` returns for a sequence of length `n`: the
   * registers it captures, and the symbols it has been called with.
   */
  class Mapper {
    const h: Hasher
    const n: nat
    var fw: bv32
    var rc: bv32
    var shift: nat
    var anti: bv32
    var mask: bv32
    var i: nat
    ghost var ins: seq<Sym>

    ghost predicate Valid()
      reads this
    {
      HasherValid(h) && Accepts(h, ins) &&
      (h.Char? ==> CharValid()) &&
      (h.Lex? && h.al.canonical ==> CanonicalValid()) &&
      (h.Lex? && !h.al.canonical ==> ForwardValid())
    }

    /** The character hashers hold the one-pass registers of the symbols so far. */
    ghost predicate CharValid()
      reads this
    {
      h.Char? && NtHash.AcceptsAll(h.ch, ins) &&
      fw == NtHash.Fw(h.ch, ins) && rc == (if h.ch.canonical then NtHash.Rc(h.ch, ins) else 0)
    }

    /** The canonical `AntiLexHasher` before call `i`, as `AntiLex.PrefixState` describes it. */
    ghost predicate CanonicalValid()
      reads this
    {
      h.Lex? && AntiLex.PrefixState(ins, i, fw, rc, shift, anti, mask)
    }

    /** The forward `AntiLexHasher` holds the window of width `MapperWidth(n)`. */
    ghost predicate ForwardValid()
      reads this
    {
      h.Lex? && AllBases(ins) &&
      shift == AntiLex.MapperShift(n) && anti == AntiLex.MapperAnti(n) &&
      fw == AntiLex.Pack(Window(ins, AntiLex.MapperWidth(n)))
    }

    /** `mapper(seq)` for a sequence of length `n`. */
    constructor (h: Hasher, n: nat)
      requires HasherValid(h)
      ensures Valid() && this.h == h && this.n == n && ins == []
    {
      this.h := h;
      this.n := n;
      fw, rc := 0, 0;
      if h.Char? {
        shift, anti, mask := 0, 0, 0;
      } else if h.al.canonical {
        shift, anti, mask := 0, 3, 3;
      } else {
        shift, anti, mask := AntiLex.MapperShift(n), AntiLex.MapperAnti(n), 0;
      }
      i := 0;
      ins := [];
      new;
      if h.Char? {
        NtHash.PrimeStart(h.ch);
      } else if h.al.canonical {
        assert AntiLex.Top(1) == Shl(3, 0);
        assert LowMask(1) == (LowMask(0) << 2) | 3;
      } else {
        WindowOfZeros(AntiLex.MapperWidth(n));
        AntiLex.PackZeros(AntiLex.MapperWidth(n));
      }
    }

    /** One call: `a` extends the prefix, and the result is the prefix hash. */
    method Call(a: Sym) returns (out: bv32)
      requires Valid() && AcceptsSym(h, a)
      modifies this
      ensures Valid() && ins == old(ins) + [a]
      ensures out == PrefixHash(h, n, ins)
    {
      if h.Char? {
        out := CallChar(a);
      } else if h.al.canonical {
        out := CallCanonical(a);
      } else {
        out := CallForward(a);
      }
    }

    /** The character hashers' `mapper` closure. */
    method CallChar(a: Sym) returns (out: bv32)
      requires Valid() && h.Char? && NtHash.Accepts(h.ch, a)
      modifies this
      ensures Valid() && ins == old(ins) + [a]
      ensures out == PrefixHash(h, n, ins)
    {
      var ch := h.ch;
      NtHash.MapperStepSpec(ch, ins, a);
      fw := NtHash.NextFw(ch, fw, a);
      if ch.canonical {
        rc := NtHash.NextRc(ch, rc, a);
      }
      out := NtHash.Output(ch, fw, rc);
      ins := ins + [a];
    }

    /** The forward `AntiLexHasher`'s `mapper` closure. */
    method CallForward(a: Sym) returns (out: bv32)
      requires Valid() && h.Lex? && !h.al.canonical && a < 4
      modifies this
      ensures Valid() && ins == old(ins) + [a]
      ensures out == PrefixHash(h, n, ins)
    {
      AntiLex.FwStepSpec(ins, a, AntiLex.MapperWidth(n));
      AllBasesSnoc(ins, a);
      fw := AntiLex.FwStep(fw, a, shift);
      out := AntiLex.Anti(fw, anti);
      ins := ins + [a];
    }

    /** The canonical `AntiLexHasher`'s `mapper` closure. */
    method CallCanonical(a: Sym) returns (out: bv32)
      requires CanonicalValid() && a < 4
      modifies this
      ensures CanonicalValid() && ins == old(ins) + [a]
      ensures out == AntiLex.CanonicalHash(|ins|, ins)
    {
      var fw' := AntiLex.PrefixFw(fw, a, i, shift);
      var rc' := AntiLex.PrefixRc(rc, a, i, mask);
      out := AntiLex.Min(AntiLex.Anti(fw', anti), AntiLex.Anti(rc', anti));
      var shift', anti', mask' := AntiLex.GrowShift(i, shift), AntiLex.GrowAnti(i, anti), AntiLex.GrowMask(i, mask);
      AntiLex.PrefixCall(ins, i, a, fw, rc, shift, anti, mask, fw', rc', shift', anti', mask');
      fw, rc, shift, anti, mask := fw', rc', shift', anti', mask';
      i := i + 1;
      ins := ins + [a];
    }
  }

  // ---------------------------------------------------------------------------
  // The in-out closure

  /**
   * The registers of the character hashers' in-out closure: the one-pass
   * registers of the last `k - 1` incoming symbols, zero-padded.
   */
  ghost predicate CharRegisters(h: Hasher, adds: seq<Sym>, fw: bv32, rc: bv32)
  {
    h.Char? && h.k >= 1 && NtHash.AcceptsAll(h.ch, Window(adds, h.k - 1)) &&
    fw == NtHash.Fw(h.ch, Window(adds, h.k - 1)) &&
    rc == (if h.ch.canonical then NtHash.Rc(h.ch, Window(adds, h.k - 1)) else 0)
  }

  /**
   * One call of the character hashers' in-out closure: the registers after
   * reading `a` give the hash of the k-mer ending at `a`, and after
   * removing `r`, the symbol leaving it, they hold the last `k - 1` symbols.
   */
  lemma {:induction false} CharCall(h: Hasher, adds: seq<Sym>, removes: seq<Sym>, a: Sym, r: Sym,
                                    fw: bv32, rc: bv32, fwOut: bv32, rcOut: bv32, fw': bv32, rc': bv32)
    requires HasherValid(h) && Accepts(h, adds) && Accepts(h, removes) && CharRegisters(h, adds, fw, rc)
    requires NtHash.Accepts(h.ch, a) && NtHash.Accepts(h.ch, r) && r == Window(adds + [a], h.k)[0]
    requires fwOut == NtHash.NextFw(h.ch, fw, a) && fw' == NtHash.RemoveFw(h.ch, fwOut, r)
    requires h.ch.canonical ==> rcOut == NtHash.NextRc(h.ch, rc, a) && rc' == NtHash.RemoveRc(h.ch, rcOut, r)
    requires !h.ch.canonical ==> rcOut == rc && rc' == rc
    ensures Accepts(h, adds + [a]) && Accepts(h, removes + [r])
    ensures CharRegisters(h, adds + [a], fw', rc')
    ensures NtHash.Output(h.ch, fwOut, rcOut) == InOutValue(h, adds + [a], removes + [r])
  {
    var ch, k := h.ch, h.k;
    var w := Window(adds, k - 1);
    NtHash.InOutStepSpec(ch, k, w, a);
    WindowSnoc(adds, a, k - 1);
    WindowDrop(adds + [a], k - 1);
    SnocAccepted(h, adds, a);
    SnocAccepted(h, removes, r);
  }

  /**
   * The closure `in_out_mapper_scalar` returns: the registers it captures,
   * and the incoming and outgoing symbols it has been called with.
   */
  class InOutMapper {
    const h: Hasher
    var fw: bv32
    var rc: bv32
    ghost var adds: seq<Sym>
    ghost var removes: seq<Sym>

    ghost predicate Valid()
      reads this
    {
      HasherValid(h) && Accepts(h, adds) && Accepts(h, removes) &&
      (h.Char? ==> CharValid()) && (h.Lex? ==> LexValid())
    }

    /**
     * The character hashers hold the one-pass registers of the last
     * `k - 1` incoming symbols, zero-padded.
     */
    ghost predicate CharValid()
      reads this
    {
      CharRegisters(h, adds, fw, rc)
    }

    /**
     * The `AntiLexHasher` holds the last `Width(k)` incoming bases forward
     * and, canonical, the reverse complement of the last `Width(k)`
     * outgoing ones.
     */
    ghost predicate LexValid()
      reads this
    {
      h.Lex? && h.al.k >= 1 &&
      fw == AntiLex.Pack(Window(adds, AntiLex.Width(h.al.k))) &&
      rc == (if h.al.canonical then AntiLex.Pack(RevComp(LastN(removes, AntiLex.Width(h.al.k)))) else 0)
    }

    /** `in_out_mapper_scalar(seq)`: the character hashers prime their registers with `k - 1` zeros. */
    constructor (h: Hasher)
      requires HasherValid(h)
      ensures Valid() && this.h == h && adds == [] && removes == []
    {
      var f, r := 0, 0;
      if h.Char? {
        f, r := NtHash.Prime(h.ch, h.k);
      }
      this.h := h;
      fw, rc := f, r;
      adds, removes := [], [];
      new;
      WindowOfZeros(K(h) - 1);
      if h.Lex? {
        AntiLex.PackZeros(AntiLex.Width(h.al.k));
        WindowOfZeros(AntiLex.Width(h.al.k));
      }
    }

    /**
     * One call with the incoming symbol `a` and the outgoing `r`. The
     * character hashers need `r` to be the symbol that leaves the k-mer
     * ending at `a`; the `AntiLexHasher` takes any lag.
     */
    method Call(a: Sym, r: Sym) returns (out: bv32)
      requires Valid() && AcceptsSym(h, a) && AcceptsSym(h, r)
      requires h.Char? ==> r == Window(adds + [a], h.k)[0]
      modifies this
      ensures Valid() && adds == old(adds) + [a] && removes == old(removes) + [r]
      ensures out == InOutValue(h, adds, removes)
    {
      if h.Char? {
        out := CallChar(a, r);
      } else {
        out := CallLex(a, r);
      }
    }

    /** The character hashers' in-out closure. */
    method CallChar(a: Sym, r: Sym) returns (out: bv32)
      requires Valid() && h.Char? && NtHash.Accepts(h.ch, a) && NtHash.Accepts(h.ch, r)
      requires r == Window(adds + [a], h.k)[0]
      modifies this
      ensures Valid() && adds == old(adds) + [a] && removes == old(removes) + [r]
      ensures out == InOutValue(h, adds, removes)
    {
      var ch := h.ch;
      var fwOut := NtHash.NextFw(ch, fw, a);
      var fw' := NtHash.RemoveFw(ch, fwOut, r);
      var rcOut, rc' := rc, rc;
      if ch.canonical {
        rcOut := NtHash.NextRc(ch, rc, a);
        rc' := NtHash.RemoveRc(ch, rcOut, r);
      }
      CharCall(h, adds, removes, a, r, fw, rc, fwOut, rcOut, fw', rc');
      out := NtHash.Output(ch, fwOut, rcOut);
      fw, rc := fw', rc';
      adds, removes := adds + [a], removes + [r];
    }

    /** The `AntiLexHasher`'s in-out closure; the forward one ignores `r`. */
    method CallLex(a: Sym, r: Sym) returns (out: bv32)
      requires Valid() && h.Lex? && a < 4 && r < 4
      modifies this
      ensures Valid() && adds == old(adds) + [a] && removes == old(removes) + [r]
      ensures out == InOutValue(h, adds, removes)
    {
      var al := h.al;
      AntiLex.InOutFwStep(al, adds, a);
      fw := AntiLex.FwStep(fw, a, al.shift);
      if al.canonical {
        AntiLex.InOutRcStep(al, removes, r);
        rc := AntiLex.RcStep(rc, r, al.mask);
        out := AntiLex.Min(AntiLex.Anti(fw, al.anti), AntiLex.Anti(rc, al.anti));
      } else {
        out := AntiLex.Anti(fw, al.anti);
      }
      AllBasesSnoc(adds, a);
      AllBasesSnoc(removes, r);
      adds, removes := adds + [a], removes + [r];
    }
  }

  // ---------------------------------------------------------------------------
  // The default methods

  /** `hash_kmer`: the last value of the prefix closure, or 0 for the empty sequence. */
  method HashKmer(h: Hasher, s: seq<Sym>) returns (v: bv32)
    requires HasherValid(h) && Accepts(h, s)
    ensures |s| == 0 ==> v == 0
    ensures |s| >= 1 ==> v == PrefixHash(h, |s|, s)
  {
    var m := new Mapper(h, |s|);
    v := 0;
    for j := 0 to |s|
      invariant m.Valid() && m.h == h && m.n == |s| && m.ins == s[..j]
      invariant j == 0 ==> v == 0
      invariant j >= 1 ==> v == PrefixHash(h, |s|, s[..j])
    {
      v := CallAt(m, s, j);
    }
    assert s[..|s|] == s;
  }

  /** The prefix closure called with `s[j]` after the symbols before it. */
  method CallAt(m: Mapper, s: seq<Sym>, j: nat) returns (v: bv32)
    requires m.Valid() && Accepts(m.h, s) && j < |s| && m.ins == s[..j]
    modifies m
    ensures m.Valid() && m.ins == s[..j + 1]
    ensures Accepts(m.h, s[..j + 1]) && v == PrefixHash(m.h, m.n, s[..j + 1])
  {
    assert s[..j + 1] == s[..j] + [s[j]];
    v := m.Call(s[j]);
  }

  /** `hash_prefixes`: the prefix closure's value after every non-empty prefix. */
  method HashPrefixes(h: Hasher, s: seq<Sym>) returns (out: seq<bv32>)
    requires HasherValid(h) && Accepts(h, s)
    ensures |out| == |s|
    ensures forall j :: 0 <= j < |s| ==> out[j] == PrefixHash(h, |s|, s[..j + 1])
  {
    var m := new Mapper(h, |s|);
    out := [];
    for j := 0 to |s|
      invariant PrefixesDone(m, h, s, j, out)
    {
      out := PrefixOne(m, h, s, j, out);
    }
  }

  /** The state of `hash_prefixes` after `j` symbols: one value per prefix read. */
  ghost predicate PrefixesDone(m: Mapper, h: Hasher, s: seq<Sym>, j: nat, out: seq<bv32>)
    reads m
  {
    m.Valid() && m.h == h && m.n == |s| && Accepts(h, s) && j <= |s| && m.ins == s[..j] && |out| == j &&
    forall t :: 0 <= t < j ==> out[t] == PrefixHash(h, |s|, s[..t + 1])
  }

  /** One step of `hash_prefixes`: the value of the prefix ending at `s[j]` is appended. */
  method PrefixOne(m: Mapper, h: Hasher, s: seq<Sym>, j: nat, out: seq<bv32>) returns (out': seq<bv32>)
    requires PrefixesDone(m, h, s, j, out) && j < |s|
    modifies m
    ensures PrefixesDone(m, h, s, j + 1, out')
  {
    var v := CallAt(m, s, j);
    out' := out + [v];
  }

  /**
   * `hash_kmers_scalar`: prime the in-out closure with `Delay(h)` incoming
   * symbols against zeros, then with `k - 1 - Delay(h)` paired symbols, and
   * collect one value per remaining pair: the hash of every k-mer.
   */
  method HashKmersScalar(h: Hasher, s: seq<Sym>) returns (out: seq<bv32>)
    requires HasherValid(h) && Accepts(h, s)
    ensures out == KmerStream(h, s)
  {
    var m := new InOutMapper(h);
    var add := PrimeDelay(m, s);
    add := PrimePairs(m, s, add);
    out := Collect(m, s, add);
  }

  /**
   * The in-out closure `m` has been called with the first `add` symbols of
   * `s`, and with outgoing symbols lagging them by `Delay`.
   */
  ghost predicate Fed(m: InOutMapper, s: seq<Sym>, add: nat)
    reads m
  {
    m.Valid() && K(m.h) >= 1 && Accepts(m.h, s) && add <= |s| &&
    m.adds == s[..add] && m.removes == (Zeros(Delay(m.h)) + s)[..add]
  }

  /** `zip(add.by_ref().take(delay), repeat(0))`: the first `Delay` symbols against zeros. */
  method PrimeDelay(m: InOutMapper, s: seq<Sym>) returns (add: nat)
    requires m.Valid() && K(m.h) >= 1 && Accepts(m.h, s) && m.adds == [] && m.removes == []
    modifies m
    ensures Fed(m, s, add)
    ensures add == Delay(m.h) || (add == |s| && add <= Delay(m.h))
  {
    var d := Delay(m.h);
    add := 0;
    while add < d && add < |s|
      invariant add <= d && Fed(m, s, add)
    {
      var _ := Feed(m, s, add, 0);
      add := add + 1;
    }
  }

  /** `zip(add.by_ref(), remove.by_ref()).take(k - 1 - delay)`: paired symbols up to the first k-mer. */
  method PrimePairs(m: InOutMapper, s: seq<Sym>, start: nat) returns (add: nat)
    requires Fed(m, s, start) && (start == Delay(m.h) || (start == |s| && start <= Delay(m.h)))
    modifies m
    ensures Fed(m, s, add)
    ensures add == K(m.h) - 1 || (add == |s| && add <= K(m.h) - 1)
  {
    var k, d := K(m.h), Delay(m.h);
    add := start;
    while add < k - 1 && add < |s|
      invariant Fed(m, s, add) && add <= k - 1 && (add < |s| ==> d <= add)
    {
      var _ := FeedPair(m, s, add);
      add := add + 1;
    }
  }

  /** `zip(add, remove).map(mapper)`: one value per remaining pair, the hash of the k-mer it ends. */
  method Collect(m: InOutMapper, s: seq<Sym>, start: nat) returns (out: seq<bv32>)
    requires Fed(m, s, start) && (start == K(m.h) - 1 || (start == |s| && start <= K(m.h) - 1))
    requires HasherValid(m.h)
    modifies m
    ensures out == KmerStream(m.h, s)
  {
    var add := start;
    CollectStart(m.h, s, add);
    out := [];
    while add < |s|
      invariant Collected(m, s, add, out)
    {
      out := CollectOne(m, s, add, out);
      add := add + 1;
    }
    CollectEnd(m.h, s, add, out);
  }

  /** The state of the collecting loop: `out` holds the hashes of the k-mers of `s[..add]`. */
  ghost predicate Collected(m: InOutMapper, s: seq<Sym>, add: nat, out: seq<bv32>)
    reads m
  {
    Fed(m, s, add) && (add >= K(m.h) - 1 || add == |s|) &&
    Accepts(m.h, s[..add]) && out == KmerStream(m.h, s[..add])
  }

  /** Before `k - 1` symbols the stream is empty. */
  lemma CollectStart(h: Hasher, s: seq<Sym>, add: nat)
    requires K(h) >= 1 && Accepts(h, s) && add <= |s| && add <= K(h) - 1
    ensures Accepts(h, s[..add]) && KmerStream(h, s[..add]) == []
  {
    SliceAccepted(h, s, 0, add);
    StreamEmpty(h, s[..add]);
  }

  /** Once every symbol is in, the collected stream is the stream of `s`. */
  lemma CollectEnd(h: Hasher, s: seq<Sym>, add: nat, out: seq<bv32>)
    requires K(h) >= 1 && Accepts(h, s) && add == |s|
    requires out == KmerStream(h, s[..add])
    ensures out == KmerStream(h, s)
  {
    assert s[..add] == s;
  }

  /** One pair of the collecting loop: the value it yields is the hash of the k-mer ending at `add`. */
  method CollectOne(m: InOutMapper, s: seq<Sym>, add: nat, out: seq<bv32>) returns (out': seq<bv32>)
    requires Collected(m, s, add, out) && add < |s|
    modifies m
    ensures Collected(m, s, add + 1, out')
  {
    var v := FeedPair(m, s, add);
    CollectStep(m.h, s, add, out, v);
    out' := out + [v];
  }

  /** One call with the symbol at `add` going in and the one `Delay` places before it going out. */
  method FeedPair(m: InOutMapper, s: seq<Sym>, add: nat) returns (v: bv32)
    requires Fed(m, s, add) && Delay(m.h) <= add < |s|
    modifies m
    ensures Fed(m, s, add + 1)
    ensures v == InOutValue(m.h, s[..add + 1], (Zeros(Delay(m.h)) + s)[..add + 1])
  {
    var d := Delay(m.h);
    assert s[add - d] == (Zeros(d) + s)[add];
    v := Feed(m, s, add, s[add - d]);
  }

  /** The value of the call that reads `s[add]` extends the stream by the k-mer ending there. */
  lemma {:induction false} CollectStep(h: Hasher, s: seq<Sym>, add: nat, out: seq<bv32>, v: bv32)
    requires HasherValid(h) && Accepts(h, s) && K(h) <= add + 1 <= |s|
    requires Accepts(h, s[..add]) && out == KmerStream(h, s[..add])
    requires Accepts(h, s[..add + 1]) && Accepts(h, (Zeros(Delay(h)) + s)[..add + 1])
    requires v == InOutValue(h, s[..add + 1], (Zeros(Delay(h)) + s)[..add + 1])
    ensures Accepts(h, s[..add + 1]) && out + [v] == KmerStream(h, s[..add + 1])
  {
    InOutValueIsKmerHash(h, s, add, K(h));
    StreamSnoc(h, s, add, K(h));
  }

  /** One call of the in-out closure inside `hash_kmers_scalar`: the symbol at `add` in, `r` out. */
  method Feed(m: InOutMapper, s: seq<Sym>, add: nat, r: Sym) returns (v: bv32)
    requires Fed(m, s, add) && add < |s|
    requires r == (Zeros(Delay(m.h)) + s)[add]
    modifies m
    ensures Fed(m, s, add + 1)
    ensures v == InOutValue(m.h, s[..add + 1], (Zeros(Delay(m.h)) + s)[..add + 1])
  {
    var d := Delay(m.h);
    assert s[..add + 1] == s[..add] + [s[add]];
    assert (Zeros(d) + s)[..add + 1] == (Zeros(d) + s)[..add] + [r];
    LaggedAccepted(m.h, s, d, add + 1);
    assert AcceptsSym(m.h, r) by {
      assert (Zeros(d) + s)[..add + 1][add] == r;
    }
    if m.h.Char? {
      LaggedHead(s, m.h.k, add);
    }
    v := m.Call(s[add], r);
  }
}
