/** Bytes, little-endian words and in-place overwriting of a byte sequence. */
module Bytes {

  newtype byte = x: int | 0 <= x < 256

  const U32 := 0x1_0000_0000

  datatype Option<+T> = None | Some(value: T)

  /** The 32-bit little-endian word stored at offset `o`. */
  function Le32(b: seq<byte>, o: nat): (r: nat)
    requires o + 4 <= |b|
    ensures r < U32
  {
    b[o] as int + 256 * b[o + 1] as int + 65536 * b[o + 2] as int + 16777216 * b[o + 3] as int
  }

  /** The 16-bit little-endian word stored at offset `o`. */
  function Le16(b: seq<byte>, o: nat): (r: nat)
    requires o + 2 <= |b|
    ensures r < 65536
  {
    b[o] as int + 256 * b[o + 1] as int
  }

  function Enc32(v: nat): (r: seq<byte>)
    requires v < U32
    ensures |r| == 4 && Le32(r, 0) == v
  {
    var q := v / 256;
    var p := q / 256;
    [(v % 256) as byte, (q % 256) as byte, (p % 256) as byte, (p / 256) as byte]
  }

  function Enc16(v: nat): (r: seq<byte>)
    requires v < 65536
    ensures |r| == 2 && Le16(r, 0) == v
  {
    [(v % 256) as byte, (v / 256) as byte]
  }

  function Max(a: nat, b: nat): nat {
    if a > b then a else b
  }

  function Zeros(n: nat): (r: seq<byte>)
    ensures |r| == n && forall i :: 0 <= i < n ==> r[i] == 0
  {
    seq(n, _ => 0)
  }

  /** `s` with the bytes from `off` on overwritten by `d`; `d` must fit. */
  function Overwrite<T>(s: seq<T>, off: nat, d: seq<T>): (r: seq<T>)
    requires off + |d| <= |s|
    ensures |r| == |s|
    ensures forall i :: 0 <= i < |s| ==> r[i] == if off <= i < off + |d| then d[i - off] else s[i]
  {
    seq(|s|, i requires 0 <= i < |s| => if off <= i < off + |d| then d[i - off] else s[i])
  }

  lemma SliceEq<T>(a: seq<T>, i: nat, b: seq<T>, j: nat, m: nat)
    requires i + m <= |a| && j + m <= |b|
    requires forall k :: j <= k < j + m ==> b[k] == a[i + (k - j)]
    ensures a[i..i + m] == b[j..j + m]
  {
    var x, y := a[i..i + m], b[j..j + m];
    forall t | 0 <= t < |y|
      ensures x[t] == y[t]
    {
      assert b[j + t] == a[i + t];
    }
  }

  lemma SliceJoin<T>(s: seq<T>, i: nat, j: nat, k: nat)
    requires i <= j <= k <= |s|
    ensures s[i..j] + s[j..k] == s[i..k]
  {
  }

  lemma UpdateTwice<T>(s: seq<T>, i: nat, x: T, y: T)
    requires i < |s|
    ensures s[i := x][i := y] == s[i := y]
  {
  }

  /** `s` with `d` written at `off`, growing `s` when `d` reaches past its end. */
  function Splice<T>(s: seq<T>, off: nat, d: seq<T>): (r: seq<T>)
    requires off <= |s|
    ensures |r| == if off + |d| > |s| then off + |d| else |s|
    ensures forall i :: 0 <= i < |r| ==> r[i] == if off <= i < off + |d| then d[i - off] else s[i]
  {
    seq(if off + |d| > |s| then off + |d| else |s|,
        i requires 0 <= i < off + |d| || 0 <= i < |s| => if off <= i < off + |d| then d[i - off] else s[i])
  }

  /** `w` is `Splice(s, off, d)`, element by element. */
  ghost predicate Spliced<T>(w: seq<T>, s: seq<T>, off: nat, d: seq<T>) {
    && off <= |s| && |w| == Max(off + |d|, |s|)
    && forall i :: 0 <= i < |w| ==> w[i] == if off <= i < off + |d| then d[i - off] else s[i]
  }

  lemma SplicedIsSplice<T>(w: seq<T>, s: seq<T>, off: nat, d: seq<T>)
    requires Spliced(w, s, off, d)
    ensures w == Splice(s, off, d)
  {
  }

  /** Splicing piece by piece is splicing the whole. */
  lemma SpliceMore<T>(s: seq<T>, off: nat, d: seq<T>, j: nat, k: nat, w: seq<T>, w': seq<T>)
    requires j <= k <= |d|
    requires Spliced(w, s, off, d[..j]) && Spliced(w', w, off + j, d[j..k])
    ensures Spliced(w', s, off, d[..k])
  {
  }
}

/**
 Division with remainder by repeated subtraction, and its inverse.  They are `/`, `%` and `*`
 (see `AreDivModMul`), but keep proofs about a variable divisor inside linear arithmetic.
 */
module DivMod {

  function Quo(k: nat, b: nat): nat
    requires b > 0
  {
    if k < b then 0 else 1 + Quo(k - b, b)
  }

  function Rem(k: nat, b: nat): (r: nat)
    requires b > 0
    ensures r < b
  {
    if k < b then k else Rem(k - b, b)
  }

  function Cap(n: nat, b: nat): nat {
    if n == 0 then 0 else Cap(n - 1, b) + b
  }

  lemma {:induction false} QuoRem(k: nat, b: nat)
    requires b > 0
    ensures k == Cap(Quo(k, b), b) + Rem(k, b)
  {
    if k >= b {
      QuoRem(k - b, b);
    }
  }

  lemma {:induction false} QuoUnique(q: nat, r: nat, b: nat)
    requires r < b
    ensures Quo(Cap(q, b) + r, b) == q && Rem(Cap(q, b) + r, b) == r
  {
    if q > 0 {
      QuoUnique(q - 1, r, b);
    }
  }

  lemma {:induction false} CapMono(m: nat, n: nat, b: nat)
    requires m <= n
    ensures Cap(m, b) <= Cap(n, b)
    ensures m < n ==> Cap(m, b) + b <= Cap(n, b)
    decreases n
  {
    if m < n {
      CapMono(m, n - 1, b);
    }
  }

  lemma QuoBound(k: nat, n: nat, b: nat)
    requires b > 0
    ensures k < Cap(n, b) <==> Quo(k, b) < n
  {
    QuoRem(k, b);
    if Quo(k, b) < n {
      CapMono(Quo(k, b), n, b);
    } else {
      CapMono(n, Quo(k, b), b);
    }
  }

  lemma QuoMono(j: nat, k: nat, b: nat)
    requires b > 0 && j <= k
    ensures Quo(j, b) <= Quo(k, b)
  {
    QuoBound(k, Quo(k, b) + 1, b);
    QuoBound(j, Quo(k, b) + 1, b);
  }

  lemma QuoStep(off: nat, j: nat, b: nat)
    requires b > 0 && Rem(off, b) + j < b
    ensures Quo(off + j, b) == Quo(off, b) && Rem(off + j, b) == Rem(off, b) + j
  {
    QuoRem(off, b);
    QuoUnique(Quo(off, b), Rem(off, b) + j, b);
  }

  lemma {:induction false} CapIsMul(n: nat, b: nat)
    ensures Cap(n, b) == n * b
  {
    if n > 0 {
      CapIsMul(n - 1, b);
    }
  }

  lemma AreDivModMul(k: nat, b: nat)
    requires b > 0
    ensures Quo(k, b) == k / b && Rem(k, b) == k % b
  {
    var q, r := k / b, k % b;
    assert k == q * b + r;
    CapIsMul(q, b);
    QuoUnique(q, r, b);
  }
}

/** Sequences of distinct numbers. */
module Lists {
  predicate NoDup(r: seq<nat>) {
    forall i, j :: 0 <= i < j < |r| ==> r[i] != r[j]
  }

  lemma NoDupPush(b: nat, r: seq<nat>)
    requires NoDup(r) && b !in r
    ensures NoDup([b] + r)
  {
    var p := [b] + r;
    forall i, j | 0 <= i < j < |p|
      ensures p[i] != p[j]
    {
      assert p[j] == r[j - 1];
      assert i > 0 ==> p[i] == r[i - 1];
    }
  }

  function Without(r: seq<nat>, b: nat): seq<nat> {
    if r == [] then [] else if r[0] == b then r[1..] else [r[0]] + Without(r[1..], b)
  }

  /** Exactly that element is gone. */
  lemma {:induction false} WithoutIs(r: seq<nat>, b: nat)
    requires NoDup(r)
    ensures NoDup(Without(r, b))
    ensures forall x :: x in Without(r, b) <==> x in r && x != b
    ensures |Without(r, b)| == |r| - if b in r then 1 else 0
  {
    if r != [] {
      WithoutIs(r[1..], b);
      assert forall x :: x in r <==> x == r[0] || x in r[1..];
      if r[0] != b {
        var w := Without(r[1..], b);
        assert forall x :: x in [r[0]] + w <==> x == r[0] || x in w;
        assert r[0] !in r[1..];
        NoDupPush(r[0], w);
      }
    }
  }

  /** Distinct numbers below `n` are no more than `n`. */
  lemma {:induction false} DistinctBound(r: seq<nat>, n: nat)
    requires NoDup(r) && forall i :: 0 <= i < |r| ==> r[i] < n
    ensures |r| <= n
    decreases n
  {
    if r != [] {
      assert r[0] < n;
    }
    if n > 0 {
      var w := Without(r, n - 1);
      WithoutIs(r, n - 1);
      forall i | 0 <= i < |w|
        ensures w[i] < n - 1
      {
        assert w[i] in w;
      }
      DistinctBound(w, n - 1);
    }
  }
}
