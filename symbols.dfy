/**
 * Symbol sequences as the hashers consume them.
 *
 * A symbol is one byte. For DNA the byte holds a two-bit packed base
 * (A = 0, C = 1, T = 2, G = 3) whose complement flips the high bit
 * (A <-> T, C <-> G); `MulHasher` also accepts arbitrary bytes.
 */
module Symbols {

  type Sym = bv8

  /** Every symbol is a two-bit packed base. */
  predicate AllBases(s: seq<Sym>)
  {
    forall i :: 0 <= i < |s| ==> s[i] < 4
  }

  /** The complement of a packed base. */
  function Comp(b: Sym): Sym
  {
    b ^ 2
  }

  /** The reverse complement: reversed, each base complemented. */
  function RevComp(s: seq<Sym>): seq<Sym>
  {
    seq(|s|, i requires 0 <= i < |s| => Comp(s[|s| - 1 - i]))
  }

  /** `n` copies of the zero symbol, the padding the streaming hashers prime with. */
  function Zeros(n: nat): seq<Sym>
  {
    seq(n, i => 0 as Sym)
  }

  /**
   * The last `m` symbols of `Zeros(m) + y`: the window of width `m` ending
   * at the end of `y`, padded on the left with zero symbols.
   */
  function Window(y: seq<Sym>, m: nat): seq<Sym>
  {
    seq(m, i requires 0 <= i < m => if |y| - m + i < 0 then 0 as Sym else y[|y| - m + i])
  }

  /** The last `min(m, |y|)` symbols of `y`. */
  function LastN(y: seq<Sym>, m: nat): seq<Sym>
  {
    if |y| <= m then y else y[|y| - m..]
  }

  // ---------------------------------------------------------------------------
  // Complement

  lemma CompBase(b: Sym)
    requires b < 4
    ensures Comp(b) < 4 && Comp(Comp(b)) == b
  {
  }

  lemma RevCompBases(s: seq<Sym>)
    requires AllBases(s)
    ensures AllBases(RevComp(s))
  {
    forall i | 0 <= i < |s|
      ensures RevComp(s)[i] < 4
    {
      CompBase(s[|s| - 1 - i]);
    }
  }

  lemma RevCompInvolution(s: seq<Sym>)
    ensures RevComp(RevComp(s)) == s
  {
    forall i | 0 <= i < |s|
      ensures RevComp(RevComp(s))[i] == s[i]
    {
      assert RevComp(RevComp(s))[i] == Comp(Comp(s[i])) by {
        assert RevComp(s)[|s| - 1 - i] == Comp(s[i]);
      }
    }
  }

  /** Appending a base puts its complement in front of the reverse complement. */
  lemma RevCompSnoc(y: seq<Sym>, a: Sym)
    ensures RevComp(y + [a]) == [Comp(a)] + RevComp(y)
  {
    var l, r := RevComp(y + [a]), [Comp(a)] + RevComp(y);
    assert |l| == |r|;
    forall i | 0 <= i < |l|
      ensures l[i] == r[i]
    {
      if i > 0 {
        assert (y + [a])[|y| - i] == y[|y| - i];
      }
    }
  }

  /** Dropping the first base drops the last symbol of the reverse complement. */
  lemma RevCompTail(x: seq<Sym>)
    requires |x| >= 1
    ensures RevComp(x) == RevComp(x[1..]) + [Comp(x[0])]
  {
    var l, r := RevComp(x), RevComp(x[1..]) + [Comp(x[0])];
    assert |l| == |r|;
    forall i | 0 <= i < |l|
      ensures l[i] == r[i]
    {
      if i < |x| - 1 {
        assert x[1..][|x| - 2 - i] == x[|x| - 1 - i];
      }
    }
  }

  /** The last `m` symbols of a reverse complement come from the first `m` bases. */
  lemma LastNRevComp(x: seq<Sym>, m: nat)
    requires m <= |x|
    ensures LastN(RevComp(x), m) == RevComp(x[..m])
  {
    var l, r := LastN(RevComp(x), m), RevComp(x[..m]);
    assert |l| == |r|;
    forall i | 0 <= i < m
      ensures l[i] == r[i]
    {
      assert l[i] == RevComp(x)[|x| - m + i];
    }
  }

  // ---------------------------------------------------------------------------
  // Windows

  lemma WindowBases(y: seq<Sym>, m: nat)
    requires AllBases(y)
    ensures AllBases(Window(y, m))
  {
  }

  lemma LastNBases(y: seq<Sym>, m: nat)
    requires AllBases(y)
    ensures AllBases(LastN(y, m))
  {
  }

  lemma AllBasesSnoc(y: seq<Sym>, a: Sym)
    requires AllBases(y) && a < 4
    ensures AllBases(y + [a])
  {
    assert forall i :: 0 <= i < |y| ==> (y + [a])[i] == y[i];
  }

  /** A new symbol extends the window by one on the right. */
  lemma WindowSnoc(y: seq<Sym>, a: Sym, m: nat)
    ensures Window(y, m) + [a] == Window(y + [a], m + 1)
  {
    var l, r := Window(y, m) + [a], Window(y + [a], m + 1);
    assert |l| == |r|;
    forall i | 0 <= i <= m
      ensures l[i] == r[i]
    {
      if i < m && |y| - m + i >= 0 {
        assert (y + [a])[|y| - m + i] == y[|y| - m + i];
      }
    }
  }

  /** Dropping the oldest symbol narrows the window. */
  lemma WindowDrop(y: seq<Sym>, m: nat)
    ensures Window(y, m + 1)[1..] == Window(y, m)
  {
  }

  /** The symbol that leaves a window of width `m + 1`. */
  lemma WindowHead(y: seq<Sym>, m: nat)
    ensures Window(y, m + 1)[0] == if |y| < m + 1 then 0 as Sym else y[|y| - m - 1]
  {
  }

  /** Once `y` is long enough, the window holds only symbols of `y`. */
  lemma WindowFull(y: seq<Sym>, m: nat)
    requires m <= |y|
    ensures Window(y, m) == y[|y| - m..] == LastN(y, m)
  {
  }

  lemma WindowOfZeros(m: nat)
    ensures Window([], m) == Zeros(m)
  {
  }

  /** A slice within a prefix is the same slice of the whole sequence. */
  lemma PrefixSlice(p: seq<Sym>, q: seq<Sym>, i: nat, j: nat)
    requires |q| <= |p| && q == p[..|q|] && i <= j <= |q|
    ensures q[i..j] == p[i..j]
  {
  }

  /** The last `m` symbols after one more symbol arrives. */
  lemma LastNSnoc(z: seq<Sym>, r: Sym, m: nat)
    requires m >= 1
    ensures LastN(z + [r], m) == (if |z| >= m then LastN(z, m)[1..] else LastN(z, m)) + [r]
  {
    if |z| >= m {
      assert (z + [r])[|z| + 1 - m..] == z[|z| - m..][1..] + [r];
    }
  }

  // ---------------------------------------------------------------------------
  // Streams

  /** The window of a stream that ends with `x` is the window of `x`. */
  lemma WindowOfSuffix(y: seq<Sym>, x: seq<Sym>, m: nat)
    requires |x| <= |y| && x == y[|y| - |x|..] && m <= |x|
    ensures Window(y, m) == LastN(x, m)
  {
    WindowFull(y, m);
    assert y[|y| - m..] == x[|x| - m..];
  }

  /**
   * The stream `Zeros(d) + s` lags `s` by `d` symbols: after `t + 1` of its
   * symbols, its last `m` symbols are the first `m` of the k-mer of `s`
   * that ends at position `t`, when `d + m == k`.
   */
  lemma LaggedLastN(s: seq<Sym>, d: nat, m: nat, k: nat, t: nat)
    requires d + m == k && k <= t + 1 <= |s|
    ensures LastN((Zeros(d) + s)[..t + 1], m) == s[t + 1 - k..t + 1][..m]
  {
    var z, x := (Zeros(d) + s)[..t + 1], s[t + 1 - k..t + 1];
    assert LastN(z, m) == z[t + 1 - m..];
    forall i | 0 <= i < m
      ensures z[t + 1 - m..][i] == x[..m][i]
    {
      assert z[t + 1 - m + i] == (Zeros(d) + s)[t + 1 - m + i];
    }
  }

  /** With a lag of `k - 1`, the symbol the stream delivers is the one leaving the k-window. */
  lemma LaggedHead(s: seq<Sym>, k: nat, t: nat)
    requires k >= 1 && t < |s|
    ensures (Zeros(k - 1) + s)[t] == Window(s[..t + 1], k)[0]
  {
    WindowHead(s[..t + 1], k - 1);
  }
}
