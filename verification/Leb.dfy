/** LEB128 (section 7.6 of DWARF version 5): the loader's readers and the generator's encoder. */
module Leb {
  import opened Memory

  /** `c` shifted left by `k` bits, that is c * 2^k. */
  function Shl(c: int, k: nat): int {
    if k == 0 then c else 2 * Shl(c, k - 1)
  }

  lemma {:induction false} ShlAdd(a: int, b: int, k: nat)
    ensures Shl(a + b, k) == Shl(a, k) + Shl(b, k)
  {
    if k > 0 { ShlAdd(a, b, k - 1); }
  }

  lemma {:induction false} ShlDouble(a: int, k: nat)
    ensures Shl(2 * a, k) == Shl(a, k + 1)
  {
    if k > 0 { ShlDouble(a, k - 1); }
  }

  lemma {:induction false} ShlMonotone(a: int, b: int, k: nat)
    requires a <= b
    ensures Shl(a, k) <= Shl(b, k)
  {
    if k > 0 { ShlMonotone(a, b, k - 1); }
  }

  lemma {:induction false} ShlPositive(k: nat, n: nat)
    ensures 0 < Shl(1, k) <= Shl(1, k + n)
  {
    if n > 0 { ShlPositive(k, n - 1); } else if k > 0 { ShlPositive(k - 1, 0); }
  }

  lemma {:induction false} Shl128(q: int, k: nat)
    ensures Shl(128 * q, k) == Shl(q, k + 7) == 128 * Shl(q, k)
  {
    ShlDouble(64 * q, k);
    ShlDouble(32 * q, k + 1);
    ShlDouble(16 * q, k + 2);
    ShlDouble(8 * q, k + 3);
    ShlDouble(4 * q, k + 4);
    ShlDouble(2 * q, k + 5);
    ShlDouble(q, k + 6);
    assert Shl(q, k + 1) == 2 * Shl(q, k);
    assert Shl(q, k + 3) == 4 * Shl(q, k + 1);
    assert Shl(q, k + 5) == 4 * Shl(q, k + 3);
  }

  lemma {:induction false} ShlCompose(c: int, a: nat, b: nat)
    ensures Shl(Shl(c, a), b) == Shl(c, a + b)
  {
    if b > 0 { ShlCompose(c, a, b - 1); }
  }

  lemma {:induction false} WordSize()
    ensures Shl(1, 64) == TWO64 && Shl(1, 63) == TWO63
  {
    ShlCompose(1, 8, 8);
    assert Shl(1, 8) == 256 && Shl(256, 8) == 0x1_0000;
    ShlCompose(1, 16, 8);
    ShlCompose(1, 24, 8);
    ShlCompose(1, 32, 8);
    ShlCompose(1, 40, 8);
    ShlCompose(1, 48, 8);
    ShlCompose(1, 56, 8);
    assert Shl(0x1_0000, 8) == 0x100_0000;
    assert Shl(0x100_0000, 8) == 0x1_0000_0000;
    assert Shl(0x1_0000_0000, 8) == 0x100_0000_0000;
    assert Shl(0x100_0000_0000, 8) == 0x1_0000_0000_0000;
    assert Shl(0x1_0000_0000_0000, 8) == 0x100_0000_0000_0000;
    assert Shl(0x100_0000_0000_0000, 8) == TWO64;
    assert Shl(1, 64) == 2 * Shl(1, 63);
  }

  /** Bitwise OR of two naturals. */
  function Or(a: nat, b: nat): nat
    decreases a + b
  {
    if a == 0 then b else if b == 0 then a
    else (if a % 2 == 1 || b % 2 == 1 then 1 else 0) + 2 * Or(a / 2, b / 2)
  }

  /** `result |= chunk << shift` on a 64-bit word whose bits from `shift` up are clear. The chunk
    * lands above everything read so far, so the OR is a sum (MergeIsOr). C leaves shift counts from
    * 64 up undefined; here such a chunk is dropped. */
  function Merge(result: u64, chunk: nat, shift: nat): (r: u64)
  {
    if shift < 64 then Wrap(result + Shl(chunk, shift)) else result
  }

  /** OR is addition when one operand has no bit below `k` and the other none from `k` up. */
  lemma {:induction false} OrDisjoint(a: nat, c: nat, k: nat)
    requires a < Shl(1, k)
    ensures Shl(c, k) >= 0 && Or(a, Shl(c, k)) == a + Shl(c, k)
    decreases k
  {
    if k > 0 { OrDisjoint(a / 2, c, k - 1); }
  }

  /** In every state the reading loops reach (shifts are multiples of seven), the sum is the
    * bitwise OR of the shifted chunk. */
  lemma {:induction false} MergeIsOr(r: u64, chunk: byte, k: nat)
    requires k < 64 && k % 7 == 0 && r < Shl(1, k) && chunk < 128
    ensures Merge(r, chunk, k) == Or(r, Wrap(Shl(chunk, k)))
  {
    hide Or, Shl;
    var c := if k < 63 then chunk else chunk % 2;
    assert Wrap(Shl(chunk, k)) == Shl(c, k) && r + Shl(c, k) < TWO64 by { ChunkFits(r, chunk, k); }
    OrDisjoint(r, c, k);
    assert Merge(r, chunk, k) == r + Shl(c, k);
  }

  /** The bits of a chunk that survive the shift: all of them, or only the lowest at bit 63. */
  lemma {:induction false} ChunkFits(r: u64, chunk: byte, k: nat)
    requires k < 64 && k % 7 == 0 && r < Shl(1, k) && chunk < 128
    ensures var c := if k < 63 then chunk else chunk % 2;
            Wrap(Shl(chunk, k)) == Shl(c, k) && 0 <= Shl(c, k) && r + Shl(c, k) < TWO64 &&
            Wrap(r + Shl(chunk, k)) == r + Shl(c, k)
  {
    hide Shl;
    WordSize();
    ShlZero(k);
    ShlMonotone(0, chunk, k);
    if k < 63 {
      Shl128(1, k);
      ShlMonotone(chunk, 128, k);
      ShlPositive(k + 7, 63 - (k + 7));
    } else {
      var c, q := chunk % 2, chunk / 2;
      ShlAdd(2 * q, c, 63);
      ShlDouble(q, 63);
      ShlOfWord(q);
      ShlMonotone(0, c, 63);
      ShlMonotone(c, 1, 63);
    }
  }

  lemma {:induction false} ShlOfWord(q: nat)
    ensures Shl(q, 64) == q * 0x1_0000_0000_0000_0000
  {
    WordSize();
    if q == 0 {
      ShlZero(64);
    } else {
      ShlOfWord(q - 1);
      ShlAdd(q - 1, 1, 64);
    }
  }

  /** Splitting off the low seven bits of a value placed at bit `k`. */
  lemma {:induction false} SplitChunk(v: int, k: nat)
    ensures Shl(v, k) == Shl(v % 128, k) + Shl(v / 128, k + 7)
    ensures 0 <= Shl(v % 128, k) <= Shl(1, k + 7) - Shl(1, k)
  {
    hide Shl;
    ShlAdd(128 * (v / 128), v % 128, k);
    Shl128(v / 128, k);
    Shl128(1, k);
    ShlMonotone(0, v % 128, k);
    ShlMonotone(v % 128, 127, k);
    ShlAdd(127, 1, k);
    ShlZero(k);
  }

  lemma {:induction false} ShlZero(k: nat)
    ensures Shl(0, k) == 0
  {
    if k > 0 { ShlZero(k - 1); }
  }

  /** `e` sits in `s` at position `p`. */
  predicate At(s: seq<byte>, p: nat, e: seq<byte>) {
    p + |e| <= |s| && s[p..p + |e|] == e
  }

  lemma {:induction false} AtCons(s: seq<byte>, p: nat, e: seq<byte>)
    requires e != [] && At(s, p, e)
    ensures s[p] == e[0] && At(s, p + 1, e[1..])
  {
    assert s[p] == s[p..p + |e|][0];
    assert s[p + 1..p + |e|] == s[p..p + |e|][1..];
  }

  lemma {:induction false} AtConcat(s: seq<byte>, p: nat, e: seq<byte>, f: seq<byte>)
    requires At(s, p, e + f)
    ensures At(s, p, e) && At(s, p + |e|, f)
  {
    assert s[p..p + |e|] == s[p..p + |e + f|][..|e|];
    assert s[p + |e|..p + |e| + |f|] == s[p..p + |e + f|][|e|..];
  }

  // ---- unsigned ----

  /** The reading loop entered at `p` with `result` and `shift`: the final value and cursor. */
  function UlebFrom(s: seq<byte>, p: nat, result: u64, shift: nat): (r: (u64, nat))
    requires p <= |s|
    ensures p <= r.1 <= |s|
    decreases |s| - p
  {
    if p == |s| then (result, p)
    else
      var next := Merge(result, s[p] % 128, shift);
      if s[p] < 128 then (next, p + 1) else UlebFrom(s, p + 1, next, shift + 7)
  }

  function ReadUleb(s: seq<byte>, p: nat): (r: (u64, nat))
    requires p <= |s|
    ensures p <= r.1 <= |s|
  {
    UlebFrom(s, p, 0, 0)
  }

  method ReadUlebLoop(s: seq<byte>, start: nat) returns (result: u64, p: nat)
    requires start <= |s|
    ensures p <= |s|
    ensures (result, p) == ReadUleb(s, start)
  {
    result, p := 0, start;
    var shift := 0;
    while p < |s|
      invariant start <= p <= |s|
      invariant ReadUleb(s, start) == UlebFrom(s, p, result, shift)
    {
      var b := s[p];
      p := p + 1;
      result := Merge(result, b % 128, shift);
      if b < 128 { break; }
      shift := shift + 7;
    }
  }

  function EncodeUleb(v: nat): (s: seq<byte>)
    ensures |s| > 0
  {
    if v < 128 then [v] else [v % 128 + 128] + EncodeUleb(v / 128)
  }

  method EncodeUlebLoop(value: nat) returns (result: seq<byte>)
    ensures result == EncodeUleb(value)
  {
    result := [];
    var v := value;
    while true
      invariant EncodeUleb(value) == result + EncodeUleb(v)
      decreases v
    {
      var b := v % 128;
      v := v / 128;
      if v != 0 { b := b + 128; }
      result := result + [b];
      if v == 0 { break; }
    }
  }

  /** A value that needs another chunk leaves room for it below bit 64. */
  lemma {:induction false} UlebRoom(r: nat, v: nat, k: nat)
    requires v >= 128 && r + Shl(v, k) < TWO64
    ensures k + 7 < 64 && r + Shl(v % 128, k) < TWO64
  {
    hide Shl;
    SplitChunk(v, k);
    ShlMonotone(1, v / 128, k + 7);
    ShlPositive(k + 7, 0);
    if k + 7 >= 64 {
      ShlPositive(64, k - 57);
      WordSize();
    }
  }

  lemma {:induction false} UlebStep(s: seq<byte>, p: nat, v: nat, r: u64, k: nat)
    requires k < 64 && r < Shl(1, k) && r + Shl(v, k) < TWO64
    requires At(s, p, EncodeUleb(v))
    ensures UlebFrom(s, p, r, k) == (r + Shl(v, k), p + |EncodeUleb(v)|)
    decreases v
  {
    hide Shl;
    AtCons(s, p, EncodeUleb(v));
    SplitChunk(v, k);
    if v < 128 {
      ShlZero(k + 7);
    } else {
      UlebRoom(r, v, k);
      UlebStep(s, p + 1, v / 128, r + Shl(v % 128, k), k + 7);
    }
  }

  /** Reading what the generator encoded gives the value back and consumes exactly the encoding. */
  lemma {:induction false} UlebRoundTrip(s: seq<byte>, p: nat, v: u64)
    requires At(s, p, EncodeUleb(v))
    ensures ReadUleb(s, p) == (v, p + |EncodeUleb(v)|)
  {
    UlebStep(s, p, v, 0, 0);
  }

  // ---- signed ----

  function ToSigned(v: u64): int { if v < TWO63 then v else v - TWO64 }

  /** The sign fill after the loop: bits `shift` and up are set when the last byte has bit 6. */
  function SlebExtend(result: u64, shift: nat, last: byte): (v: int)
    ensures -TWO63 <= v < TWO63
  {
    if shift < 64 && last % 128 >= 64 then ToSigned(Wrap(result - Shl(1, shift))) else ToSigned(result)
  }

  function SlebFrom(s: seq<byte>, p: nat, result: u64, shift: nat, last: byte): (r: (int, nat))
    requires p <= |s|
    ensures p <= r.1 <= |s|
    ensures -TWO63 <= r.0 < TWO63
    decreases |s| - p
  {
    if p == |s| then (SlebExtend(result, shift, last), p)
    else
      var next := Merge(result, s[p] % 128, shift);
      if s[p] < 128 then (SlebExtend(next, shift + 7, s[p]), p + 1)
      else SlebFrom(s, p + 1, next, shift + 7, s[p])
  }

  function ReadSleb(s: seq<byte>, p: nat): (r: (int, nat))
    requires p <= |s|
    ensures p <= r.1 <= |s|
    ensures -TWO63 <= r.0 < TWO63
  {
    SlebFrom(s, p, 0, 0, 0)
  }

  method ReadSlebLoop(s: seq<byte>, start: nat) returns (v: int, p: nat)
    requires start <= |s|
    ensures p <= |s|
    ensures (v, p) == ReadSleb(s, start)
  {
    var result: u64, shift, b: byte := 0, 0, 0;
    p := start;
    while p < |s|
      invariant start <= p <= |s|
      invariant ReadSleb(s, start) == SlebFrom(s, p, result, shift, b)
    {
      b := s[p];
      p := p + 1;
      result := Merge(result, b % 128, shift);
      shift := shift + 7;
      if b < 128 { break; }
    }
    v := SlebExtend(result, shift, b);
  }

  /** Standard signed encoding: stop once the rest is a copy of the last chunk's sign bit. */
  function EncodeSleb(v: int): (s: seq<byte>)
    ensures |s| > 0
    decreases if v < 0 then -v - 1 else v
  {
    if -64 <= v < 64 then [v % 128] else [v % 128 + 128] + EncodeSleb(v / 128)
  }

  /** Setting every bit from `k` up in a word that has none of them is subtracting 2^k. */
  lemma {:induction false} SignFillIsOr(r: u64, k: nat)
    requires k < 64 && r < Shl(1, k)
    ensures Wrap(r - Shl(1, k)) == Or(r, Wrap(-Shl(1, k)))
  {
    hide Or, Shl;
    WordSize();
    ShlPositive(k, 64 - k);
    ShlPositive(0, 64 - k);
    ShlCompose(1, 64 - k, k);
    var c := Shl(1, 64 - k) - 1;
    ShlAdd(c, 1, k);
    OrDisjoint(r, c, k);
    NegativeWraps(Shl(1, k));
    NegativeWraps(Shl(1, k) - r);
  }

  lemma {:induction false} NegativeWraps(x: int)
    requires 0 < x <= TWO64
    ensures Wrap(-x) == TWO64 - x
  {
    DivModUnique(-x, 0x1_0000_0000_0000_0000, -1, 0x1_0000_0000_0000_0000 - x);
  }

  /** The last chunk of a signed encoding, with its sign fill. */
  lemma {:induction false} SlebLast(r: u64, k: nat, v: int)
    requires k <= 63 && k % 7 == 0 && r < Shl(1, k) && -64 <= v < 64
    requires -TWO63 <= r + Shl(v, k) < TWO63
    ensures SlebExtend(Merge(r, v % 128, k), k + 7, v % 128) == r + Shl(v, k)
  {
    hide Shl;
    if v >= 0 {
      SlebLastPositive(r, k, v);
    } else if k < 63 {
      SlebLastLow(r, k, v);
    } else {
      SlebLastTop(r, v);
    }
  }

  lemma {:induction false} SlebLastPositive(r: u64, k: nat, v: int)
    requires k <= 63 && 0 <= v < 64 && r + Shl(v, k) < TWO63
    ensures SlebExtend(Merge(r, v % 128, k), k + 7, v % 128) == r + Shl(v, k)
  {
    hide Shl;
    ShlMonotone(0, v, k);
    ShlZero(k);
    assert v % 128 == v;
  }

  lemma {:induction false} SlebLastLow(r: u64, k: nat, v: int)
    requires k < 63 && k % 7 == 0 && r < Shl(1, k) && -64 <= v < 0
    ensures SlebExtend(Merge(r, v % 128, k), k + 7, v % 128) == r + Shl(v, k)
  {
    hide Shl;
    WordSize();
    SplitChunk(v, k);
    ShlPositive(k + 7, 63 - (k + 7));
    assert v / 128 == -1;
    ShlAdd(-1, 1, k + 7);
    ShlZero(k + 7);
    var low := r + Shl(v % 128, k);
    assert Merge(r, v % 128, k) == low;
    assert Shl(v, k) == Shl(v % 128, k) - Shl(1, k + 7);
  }

  /** The tenth chunk starts at bit 63: only its lowest bit survives, and it is the sign. */
  lemma {:induction false} SlebLastTop(r: u64, v: int)
    requires r < Shl(1, 63) && -64 <= v < 0
    requires -TWO63 <= r + Shl(v, 63)
    ensures SlebExtend(Merge(r, v % 128, 63), 70, v % 128) == r + Shl(v, 63)
  {
    hide Shl;
    WordSize();
    ShlAdd(-1, 1, 63);
    ShlZero(63);
    if v < -1 {
      ShlMonotone(v, -2, 63);
      ShlAdd(-1, -1, 63);
      assert false;
    }
    Shl128(1, 63);
    ShlAdd(127, 1, 63);
    assert Shl(127, 63) == 63 * TWO64 + TWO63;
  }

  /** A value that still needs another chunk leaves room for it below bit 64. */
  lemma {:induction false} SlebRoom(r: nat, v: int, k: nat)
    requires k <= 63 && k % 7 == 0 && r < Shl(1, k) && !(-64 <= v < 64)
    requires -TWO63 <= r + Shl(v, k) < TWO63
    ensures k + 7 <= 63 && Shl(1, k + 7) < TWO64
  {
    hide Shl;
    WordSize();
    Shl128(1, k);
    ShlMonotone(if v >= 64 then 64 else v, if v >= 64 then v else -65, k);
    Shl64s(k);
    if k == 63 { assert false; }
    ShlPositive(k + 7, 63 - (k + 7));
  }

  lemma {:induction false} Shl64s(k: nat)
    ensures Shl(64, k) == 64 * Shl(1, k) && Shl(-65, k) == -65 * Shl(1, k)
  {
    Shl128(1, k);
    ShlAdd(64, 64, k);
    ShlAdd(-65, 65, k);
    ShlAdd(64, 1, k);
    ShlZero(k);
  }

  lemma {:induction false} SlebMore(s: seq<byte>, p: nat, r: u64, k: nat, last: byte, r': u64)
    requires p < |s| && s[p] >= 128 && r' == Merge(r, s[p] % 128, k)
    ensures SlebFrom(s, p, r, k, last) == SlebFrom(s, p + 1, r', k + 7, s[p])
  {
  }

  lemma {:induction false} SlebStep(s: seq<byte>, p: nat, v: int, r: u64, n: nat, last: byte)
    requires n <= 9 && r < Shl(1, 7 * n)
    requires -TWO63 <= r + Shl(v, 7 * n) < TWO63
    requires At(s, p, EncodeSleb(v))
    ensures SlebFrom(s, p, r, 7 * n, last) == (r + Shl(v, 7 * n), p + |EncodeSleb(v)|)
    decreases if v < 0 then -v - 1 else v
  {
    hide Shl;
    if -64 <= v < 64 {
      SlebBase(s, p, v, r, n, last);
    } else {
      AtCons(s, p, EncodeSleb(v));
      var r' := SlebRest(r, v, n);
      assert EncodeSleb(v)[1..] == EncodeSleb(v / 128);
      SlebMore(s, p, r, 7 * n, last, r');
      SlebStep(s, p + 1, v / 128, r', n + 1, s[p]);
    }
  }

  lemma {:induction false} SlebBase(s: seq<byte>, p: nat, v: int, r: u64, n: nat, last: byte)
    requires n <= 9 && r < Shl(1, 7 * n) && -64 <= v < 64
    requires -TWO63 <= r + Shl(v, 7 * n) < TWO63
    requires At(s, p, [v % 128])
    ensures SlebFrom(s, p, r, 7 * n, last) == (r + Shl(v, 7 * n), p + 1)
  {
    hide Shl;
    AtCons(s, p, [v % 128]);
    SlebLast(r, 7 * n, v);
  }

  lemma {:induction false} SlebRest(r: u64, v: int, n: nat) returns (r': u64)
    requires n <= 9 && r < Shl(1, 7 * n) && !(-64 <= v < 64)
    requires -TWO63 <= r + Shl(v, 7 * n) < TWO63
    ensures n < 9 && r' == Merge(r, v % 128, 7 * n) < Shl(1, 7 * n + 7)
    ensures r' + Shl(v / 128, 7 * n + 7) == r + Shl(v, 7 * n)
  {
    hide Shl;
    SlebRoom(r, v, 7 * n);
    SplitChunk(v, 7 * n);
    r' := r + Shl(v % 128, 7 * n);
  }

  lemma {:induction false} SlebRoundTrip(s: seq<byte>, p: nat, v: int)
    requires -TWO63 <= v < TWO63
    requires At(s, p, EncodeSleb(v))
    ensures ReadSleb(s, p) == (v, p + |EncodeSleb(v)|)
  {
    SlebStep(s, p, v, 0, 0, 0);
  }

  // ---- any bytes at all ----

  /** The bytes that a read from `p` takes: up to the first without the continuation bit, or all there are. */
  predicate Group(s: seq<byte>, p: nat, q: nat) {
    && p <= q <= |s| && (forall i :: p <= i < q - 1 ==> s[i] >= 128)
    && ((p < q && s[q - 1] < 128) || (q == |s| && (p < q ==> s[q - 1] >= 128)))
  }

  /** Seven bits from each byte, the first lowest, with no bound. */
  function Digits(e: seq<byte>): nat {
    if e == [] then 0 else e[0] % 128 + 128 * Digits(e[1..])
  }

  lemma {:induction false} WrapSum(x: int, y: int)
    ensures Wrap(Wrap(x) + y) == Wrap(x + y)
  {
  }

  /** A shift of 64 or more leaves nothing in the word, so dropping the chunk is shifting it. */
  lemma {:induction false} MergeShifts(r: u64, c: nat, k: nat)
    ensures Merge(r, c, k) == Wrap(r + Shl(c, k))
  {
    hide Shl;
    if k >= 64 {
      ShlCompose(c, k - 64, 64);
      ShlMonotone(0, c, k - 64);
      ShlZero(k - 64);
      ShlOfWord(Shl(c, k - 64));
      DivModUnique(r + Shl(c, k), TWO64, Shl(c, k - 64), r);
    }
  }

  lemma {:induction false} DigitsStep(e: seq<byte>, k: nat)
    requires e != []
    ensures Shl(Digits(e), k) == Shl(e[0] % 128, k) + Shl(Digits(e[1..]), k + 7)
  {
    hide Shl;
    ShlAdd(e[0] % 128, 128 * Digits(e[1..]), k);
    Shl128(Digits(e[1..]), k);
  }

  lemma {:induction false} UlebGroup(s: seq<byte>, p: nat, q: nat, r: u64, k: nat)
    requires Group(s, p, q)
    ensures UlebFrom(s, p, r, k) == (Wrap(r + Shl(Digits(s[p..q]), k)), q)
    decreases q - p
  {
    hide Shl, Merge, Wrap;
    var e := s[p..q];
    if p == q {
      ShlZero(k);
      SmallWraps(r);
    } else {
      assert e[1..] == s[p + 1..q];
      DigitsStep(e, k);
      MergeShifts(r, s[p] % 128, k);
      WrapSum(r + Shl(s[p] % 128, k), Shl(Digits(s[p + 1..q]), k + 7));
      if s[p] >= 128 {
        UlebGroup(s, p + 1, q, Merge(r, s[p] % 128, k), k + 7);
      } else {
        ShlZero(k + 7);
        assert Digits(s[p + 1..q]) == 0;
      }
    }
  }

  lemma {:induction false} SmallWraps(r: u64)
    ensures Wrap(r) == r
  {
  }

  /** Reading from any bytes, minimal or not, ended or cut off, of any length: the value is the base-128
    * numeral modulo 2^64, and the cursor is after the bytes taken. */
  lemma {:induction false} UlebMeaning(s: seq<byte>, p: nat, q: nat)
    requires Group(s, p, q)
    ensures ReadUleb(s, p) == (Digits(s[p..q]) % 0x1_0000_0000_0000_0000, q)
  {
    hide UlebFrom;
    UlebGroup(s, p, q, 0, 0);
  }

  /** What is left to the sign fill: up to nine bytes, the last with bit 6. */
  function Fill(e: seq<byte>, k: nat, last: byte): int {
    if k + 7 * |e| < 64 && (if e == [] then last else e[|e| - 1]) % 128 >= 64 then Shl(1, k + 7 * |e|) else 0
  }

  lemma {:induction false} ExtendIs(r: u64, k: nat, last: byte)
    ensures SlebExtend(r, k, last) == ToSigned(Wrap(r - (if k < 64 && last % 128 >= 64 then Shl(1, k) else 0)))
  {
  }

  lemma {:induction false} SlebGroup(s: seq<byte>, p: nat, q: nat, r: u64, k: nat, last: byte)
    requires Group(s, p, q)
    ensures SlebFrom(s, p, r, k, last) ==
            (ToSigned(Wrap(r + Shl(Digits(s[p..q]), k) - Fill(s[p..q], k, last))), q)
    decreases q - p
  {
    hide Shl, Merge, Wrap, SlebExtend, ToSigned;
    var e := s[p..q];
    if p == q {
      ShlZero(k);
      ExtendIs(r, k, last);
    } else {
      assert e[1..] == s[p + 1..q];
      DigitsStep(e, k);
      MergeShifts(r, s[p] % 128, k);
      var r', rest := Merge(r, s[p] % 128, k), Shl(Digits(s[p + 1..q]), k + 7);
      if s[p] >= 128 {
        SlebGroup(s, p + 1, q, r', k + 7, s[p]);
        assert Fill(s[p + 1..q], k + 7, s[p]) == Fill(e, k, last);
        WrapSum(r + Shl(s[p] % 128, k), rest - Fill(e, k, last));
      } else {
        ShlZero(k + 7);
        assert Digits(s[p + 1..q]) == 0;
        ExtendIs(r', k + 7, s[p]);
        WrapSum(r + Shl(s[p] % 128, k), -Fill(e, k, last));
      }
    }
  }

  /** The signed read of any bytes: the numeral, less 128 to the number of bytes when there are at most nine
    * and the last has bit 6, as a 64-bit two's complement word. */
  lemma {:induction false} SlebMeaning(s: seq<byte>, p: nat, q: nat)
    requires Group(s, p, q)
    ensures var n := q - p;
            var x := Digits(s[p..q]) - if 0 < n <= 9 && s[q - 1] % 128 >= 64 then Shl(1, 7 * n) else 0;
            var w := x % 0x1_0000_0000_0000_0000;
            ReadSleb(s, p) == (if w < 0x8000_0000_0000_0000 then w else w - 0x1_0000_0000_0000_0000, q)
  {
    hide SlebFrom;
    SlebGroup(s, p, q, 0, 0, 0);
    ShlNone(Digits(s[p..q]));
  }

  lemma {:induction false} ShlNone(x: int)
    ensures Shl(x, 0) == x
  {
  }
}
