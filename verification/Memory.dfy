/** Byte-addressed memory, little-endian words and 64-bit wrap-around. */
module Memory {

  type byte = b: int | 0 <= b < 256
  type u64 = v: int | 0 <= v < 0x1_0000_0000_0000_0000

  type u32 = v: int | 0 <= v < 0x1_0000_0000

  const TWO64: int := 0x1_0000_0000_0000_0000
  const TWO63: int := 0x8000_0000_0000_0000

  /** Memory: the bytes written so far; an address never written reads as zero. */
  type Mem = map<int, byte>

  function Get(m: Mem, a: int): byte { if a in m then m[a] else 0 }

  function Wrap(x: int): u64 { x % 0x1_0000_0000_0000_0000 }

  /** Quotient and remainder are determined by the division equation. */
  lemma {:induction false} DivModUnique(x: int, d: int, q: int, r: int)
    requires 0 <= r < d && x == d * q + r
    ensures x / d == q && x % d == r
  {
    var e := x / d - q;
    assert d * e == r - x % d by { assert x == d * (x / d) + x % d; assert d * (x / d) - d * q == d * e; }
    MulGrows(d, e);
  }

  lemma {:induction false} MulGrows(d: int, e: int)
    requires d > 0
    ensures e >= 1 ==> d * e >= d
    ensures e <= -1 ==> d * e <= -d
  {
  }

  /** `n` little-endian bytes of `v`. */
  function LE(v: nat, n: nat): (s: seq<byte>)
    ensures |s| == n
  {
    if n == 0 then [] else [v % 256] + LE(v / 256, n - 1)
  }

  function FromLE(s: seq<byte>): (v: nat)
  {
    if s == [] then 0 else s[0] + 256 * FromLE(s[1..])
  }

  function Pow256(n: nat): (p: nat)
    ensures p > 0
  {
    if n == 0 then 1 else 256 * Pow256(n - 1)
  }

  lemma {:induction false} FromLEBound(s: seq<byte>)
    ensures FromLE(s) < Pow256(|s|)
  {
    if s != [] { FromLEBound(s[1..]); }
  }

  lemma {:induction false} FromLEofLE(v: nat, n: nat)
    requires v < Pow256(n)
    ensures FromLE(LE(v, n)) == v
  {
    if n > 0 {
      assert LE(v, n)[1..] == LE(v / 256, n - 1);
      FromLEofLE(v / 256, n - 1);
    }
  }

  lemma {:induction false} LEofFromLE(s: seq<byte>)
    ensures LE(FromLE(s), |s|) == s
  {
    if s != [] {
      LEofFromLE(s[1..]);
      assert FromLE(s) % 256 == s[0] && FromLE(s) / 256 == FromLE(s[1..]);
    }
  }

  function Slice(m: Mem, a: int, n: nat): (s: seq<byte>)
    ensures |s| == n
    ensures forall i :: 0 <= i < n ==> s[i] == Get(m, a + i)
  {
    seq<byte>(n, i requires 0 <= i < n => Get(m, a + i))
  }

  function Store(m: Mem, a: int, s: seq<byte>): (m': Mem)
    ensures forall x :: Get(m', x) == if a <= x < a + |s| then s[x - a] else Get(m, x)
    ensures forall x :: x in m' <==> x in m || a <= x < a + |s|
    decreases |s|
  {
    if s == [] then m else Store(m[a := s[0]], a + 1, s[1..])
  }

  function Load64(m: Mem, a: int): (v: u64)
  {
    FromLEBound(Slice(m, a, 8));
    assert Pow256(8) == TWO64;
    FromLE(Slice(m, a, 8))
  }

  function Store64(m: Mem, a: int, v: u64): (m': Mem)
    ensures forall x :: (x < a || a + 8 <= x) ==> Get(m', x) == Get(m, x)
  {
    Store(m, a, LE(v, 8))
  }

  lemma {:induction false} Load64Store64(m: Mem, a: int, v: u64)
    ensures Load64(Store64(m, a, v), a) == v
  {
    assert Slice(Store64(m, a, v), a, 8) == LE(v, 8);
    assert Pow256(8) == TWO64;
    FromLEofLE(v, 8);
  }

  /** A word is unchanged by anything that leaves its eight bytes alone. */
  lemma {:induction false} Load64Frame(m: Mem, m': Mem, a: int)
    requires forall x :: a <= x < a + 8 ==> Get(m', x) == Get(m, x)
    ensures Load64(m', a) == Load64(m, a)
  {
    assert Slice(m', a, 8) == Slice(m, a, 8);
  }

  function Load32(m: Mem, a: int): (v: nat)
    ensures v < 0x1_0000_0000
  {
    FromLEBound(Slice(m, a, 4));
    assert Pow256(4) == 0x1_0000_0000;
    FromLE(Slice(m, a, 4))
  }

  lemma {:induction false} Load32Of(m: Mem, a: int)
    ensures Load32(m, a) == Get(m, a) + 0x100 * Get(m, a + 1) + 0x1_0000 * Get(m, a + 2) + 0x100_0000 * Get(m, a + 3)
  {
    var s := Slice(m, a, 4);
    assert FromLE(s) == s[0] + 256 * FromLE(s[1..]);
    assert s[1..][1..] == s[2..] && s[2..][1..] == s[3..] && s[3..] == [s[3]];
    assert FromLE(s[1..]) == s[1] + 256 * FromLE(s[2..]);
    assert FromLE(s[2..]) == s[2] + 256 * FromLE(s[3..]);
    assert FromLE(s[3..]) == s[3];
  }

  lemma {:induction false} FromLEConcat(s: seq<byte>, t: seq<byte>)
    ensures FromLE(s + t) == FromLE(s) + Pow256(|s|) * FromLE(t)
  {
    if s == [] {
      assert s + t == t;
    } else {
      assert (s + t)[1..] == s[1..] + t;
      FromLEConcat(s[1..], t);
      assert 256 * (Pow256(|s[1..]|) * FromLE(t)) == Pow256(|s|) * FromLE(t);
    }
  }

  /** A word is its low half and its high half. */
  lemma {:induction false} Load64Halves(m: Mem, a: int)
    ensures Load64(m, a) == Load32(m, a) + 0x1_0000_0000 * Load32(m, a + 4)
  {
    assert Slice(m, a, 8) == Slice(m, a, 4) + Slice(m, a + 4, 4);
    FromLEConcat(Slice(m, a, 4), Slice(m, a + 4, 4));
    assert Pow256(4) == 0x1_0000_0000;
  }

  lemma {:induction false} Load32Frame(m: Mem, m': Mem, a: int)
    requires forall x :: a <= x < a + 4 ==> Get(m', x) == Get(m, x)
    ensures Load32(m', a) == Load32(m, a)
  {
    assert Slice(m', a, 4) == Slice(m, a, 4);
  }

  /** Two adjacent stores are one. */
  lemma {:induction false} StoreConcat(m: Mem, a: int, x: seq<byte>, y: seq<byte>)
    ensures Store(Store(m, a, x), a + |x|, y) == Store(m, a, x + y)
  {
    hide Store;
    SameMem(Store(Store(m, a, x), a + |x|, y), Store(m, a, x + y));
  }

  lemma {:induction false} SameMem(m: Mem, m': Mem)
    requires forall x :: x in m <==> x in m'
    requires forall x :: Get(m, x) == Get(m', x)
    ensures m == m'
  {
    assert m.Keys == m'.Keys by {
      forall x ensures x in m.Keys <==> x in m'.Keys { assert x in m <==> x in m'; }
    }
    forall x | x in m ensures m[x] == m'[x] {
      assert Get(m, x) == Get(m', x);
    }
  }

  // ---- ranges of a file buffer ----

  /** `n` bytes of a file buffer from `off` on; like memory, what lies past its end reads as zero. */
  function Window(file: seq<byte>, off: nat, n: nat): (s: seq<byte>)
    ensures |s| == n
    ensures forall i :: 0 <= i < n ==> s[i] == if off + i < |file| then file[off + i] else 0
  {
    seq<byte>(n, i requires 0 <= i < n => if off + i < |file| then file[off + i] else 0)
  }

  lemma {:induction false} WindowInside(file: seq<byte>, off: nat, n: nat)
    requires off + n <= |file|
    ensures Window(file, off, n) == file[off..off + n]
  {
  }

  /** The loaders' bounds check: the two 32-bit fields are added in 32 bits. */
  predicate PastEnd(off: u32, size: u32, fileSize: nat) { (off + size) % 0x1_0000_0000 > fileSize }
}
