/** The entry stack of a loaded program, and the register-loading walk that reads it back. */
module EntryStack {
  import opened Memory
  import opened Options

  type CString = s: seq<byte> | forall i :: 0 <= i < |s| ==> s[i] != 0

  const MAX_ARGC := 1000000

  function AlignDown(x: int): int { x - x % 16 }

  // ---- layout ----

  /** The strings one after another, each with its NUL. */
  function Blob(strs: seq<CString>): (b: seq<byte>)
  {
    if strs == [] then [] else strs[0] + [0] + Blob(strs[1..])
  }

  /** Where each string starts when the blob starts at `a`. */
  function Starts(strs: seq<CString>, a: int): (r: seq<int>)
    ensures |r| == |strs|
  {
    if strs == [] then [] else [a] + Starts(strs[1..], a + |strs[0]| + 1)
  }

  /** argv strings, envp strings, then argv[0] again for apple[0]. */
  function AllStrings(argv: seq<CString>, envp: seq<CString>): seq<CString>
    requires |argv| > 0
  {
    argv + envp + [argv[0]]
  }

  function StringBase(base: nat, size: nat, argv: seq<CString>, envp: seq<CString>): int
    requires |argv| > 0
  {
    AlignDown(AlignDown(base + size) - |Blob(AllStrings(argv, envp))|)
  }

  function PointerCount(argc: nat, nenv: nat): nat { 1 + (argc + 1) + (nenv + 1) + 2 }

  function StackTop(base: nat, size: nat, argv: seq<CString>, envp: seq<CString>): int
    requires |argv| > 0
  {
    AlignDown(StringBase(base, size, argv, envp) - 8 * PointerCount(|argv|, |envp|))
  }

  /** argc, argv..., NULL, envp..., NULL, apple[0], NULL. */
  function PointerBlock(argc: nat, argvPtrs: seq<int>, envpPtrs: seq<int>, apple0: int): seq<int> {
    [argc] + argvPtrs + [0] + envpPtrs + [0] + [apple0, 0]
  }

  function WordBytes(ws: seq<int>): (b: seq<byte>)
    ensures |b| == 8 * |ws|
  {
    if ws == [] then [] else LE(Wrap(ws[0]), 8) + WordBytes(ws[1..])
  }

  // ---- building it ----

  class Stack {
    var mem: Mem

    constructor (m: Mem)
      ensures mem == m
    {
      mem := m;
    }

    /** Copy strings upwards from `start`, remembering where each went. */
    method CopyStrings(strs: seq<CString>, start: int) returns (ptrs: seq<int>, str: int)
      modifies this
      ensures mem == Store(old(mem), start, Blob(strs))
      ensures ptrs == Starts(strs, start) && str == start + |Blob(strs)|
    {
      hide Store;
      ptrs, str := [], start;
      StoreNothing(mem, start);
      var i := 0;
      while i < |strs|
        invariant 0 <= i <= |strs|
        invariant mem == Store(old(mem), start, Blob(strs[..i])) && str == start + |Blob(strs[..i])|
        invariant Starts(strs, start) == ptrs + Starts(strs[i..], str)
      {
        BlobSnoc(strs, i);
        StoreConcat(old(mem), start, Blob(strs[..i]), strs[i] + [0]);
        mem := Store(mem, str, strs[i] + [0]);
        assert strs[i..][1..] == strs[i + 1..];
        ptrs := ptrs + [str];
        str := str + |strs[i]| + 1;
        i := i + 1;
      }
      assert strs[..i] == strs && strs[i..] == [];
    }

    /** `*p++ = w` for each word. */
    method PushWords(ws: seq<int>, start: int) returns (p: int)
      modifies this
      ensures mem == Store(old(mem), start, WordBytes(ws)) && p == start + 8 * |ws|
    {
      hide Store, LE;
      p := start;
      var i := 0;
      StoreNothing(mem, start);
      while i < |ws|
        invariant 0 <= i <= |ws| && p == start + 8 * i
        invariant mem == Store(old(mem), start, WordBytes(ws[..i]))
      {
        WordsSnoc(ws, i);
        StoreConcat(old(mem), start, WordBytes(ws[..i]), LE(Wrap(ws[i]), 8));
        mem := Store(mem, p, LE(Wrap(ws[i]), 8));
        p := p + 8;
        i := i + 1;
      }
      assert ws[..i] == ws;
    }

    /** argc, argv, NULL, envp, NULL, apple[0], NULL, upwards from `start`. */
    method PushBlock(argc: nat, argvPtrs: seq<int>, envpPtrs: seq<int>, apple0: int, start: int)
      modifies this
      ensures mem == Store(old(mem), start, WordBytes(PointerBlock(argc, argvPtrs, envpPtrs, apple0)))
    {
      hide Store, WordBytes;
      ghost var m, done := mem, [argc];
      var p := PushWords([argc], start);
      p, done := Push(argvPtrs, p, m, start, done);
      p, done := Push([0], p, m, start, done);
      p, done := Push(envpPtrs, p, m, start, done);
      p, done := Push([0], p, m, start, done);
      p, done := Push([apple0, 0], p, m, start, done);
    }

    /** Further words after those already pushed from `start`. */
    method Push(ws: seq<int>, p: int, ghost m: Mem, ghost start: int, ghost done: seq<int>)
      returns (p': int, ghost done': seq<int>)
      requires mem == Store(m, start, WordBytes(done)) && p == start + 8 * |done|
      modifies this
      ensures done' == done + ws
      ensures mem == Store(m, start, WordBytes(done')) && p' == start + 8 * |done'|
    {
      hide Store, WordBytes;
      StoreWords(m, start, done, ws);
      p' := PushWords(ws, p);
      done' := done + ws;
    }

    /** setup_stack; None when it gives up because argc is too large. */
    method SetupStack(base: nat, size: nat, argv: seq<CString>, envp: seq<CString>) returns (rsp: Option<int>)
      requires |argv| > 0
      modifies this
      ensures rsp == if |argv| < 1000000 then Some(StackTop(base, size, argv, envp)) else None
      ensures rsp.Some? ==> mem == Built(old(mem), base, size, argv, envp)
    {
      hide Store, Blob, Starts, WordBytes;
      var top := AlignDown(base + size);
      var space := StringSpace(argv, envp);
      top := AlignDown(top - space);
      if |argv| >= MAX_ARGC { return None; }
      ghost var strings, m0 := top, mem;
      var argvPtrs, envpPtrs, str;
      argvPtrs, str := CopyStrings(argv, top);
      ghost var afterArgv := str;
      envpPtrs, str := CopyStrings(envp, str);
      var apple0 := str;
      mem := Store(mem, str, argv[0] + [0]);
      ThreeStores(m0, strings, argv, envp);
      top := AlignDown(top - 8 * PointerCount(|argv|, |envp|));
      PushBlock(|argv|, argvPtrs, envpPtrs, apple0, top);
      rsp := Some(top);
    }
  }

  method StringSpace(argv: seq<CString>, envp: seq<CString>) returns (space: nat)
    requires |argv| > 0
    ensures space == |Blob(AllStrings(argv, envp))|
  {
    var a := TotalLength(argv);
    var e := TotalLength(envp);
    space := a + e + |argv[0]| + 1;
    BlobParts(argv, envp);
  }

  method TotalLength(strs: seq<CString>) returns (n: nat)
    ensures n == |Blob(strs)|
  {
    n := 0;
    for i := 0 to |strs|
      invariant n == |Blob(strs[..i])|
    {
      BlobSnoc(strs, i);
      n := n + |strs[i]| + 1;
    }
    assert strs[..|strs|] == strs;
  }

  lemma {:induction false} StoreNothing(m: Mem, a: int)
    ensures Store(m, a, []) == m && Blob([]) == [] && WordBytes([]) == []
  {
  }

  lemma {:induction false} BlobConcat(a: seq<CString>, b: seq<CString>)
    ensures Blob(a + b) == Blob(a) + Blob(b)
  {
    if a == [] {
      assert a + b == b;
    } else {
      assert (a + b)[1..] == a[1..] + b;
      BlobConcat(a[1..], b);
    }
  }

  lemma {:induction false} BlobOne(s: CString)
    ensures Blob([s]) == s + [0]
  {
    assert [s][1..] == [];
  }

  lemma {:induction false} BlobSnoc(strs: seq<CString>, i: nat)
    requires i < |strs|
    ensures Blob(strs[..i + 1]) == Blob(strs[..i]) + (strs[i] + [0])
  {
    assert strs[..i + 1] == strs[..i] + [strs[i]];
    BlobConcat(strs[..i], [strs[i]]);
    BlobOne(strs[i]);
  }

  lemma {:induction false} BlobParts(argv: seq<CString>, envp: seq<CString>)
    requires |argv| > 0
    ensures Blob(AllStrings(argv, envp)) == Blob(argv) + Blob(envp) + (argv[0] + [0])
  {
    BlobConcat(argv + envp, [argv[0]]);
    BlobConcat(argv, envp);
    BlobOne(argv[0]);
  }

  lemma {:induction false} WordsConcat(a: seq<int>, b: seq<int>)
    ensures WordBytes(a + b) == WordBytes(a) + WordBytes(b)
  {
    hide LE;
    if a == [] {
      assert a + b == b;
    } else {
      assert (a + b)[1..] == a[1..] + b;
      WordsConcat(a[1..], b);
    }
  }

  lemma {:induction false} WordsSnoc(ws: seq<int>, i: nat)
    requires i < |ws|
    ensures WordBytes(ws[..i + 1]) == WordBytes(ws[..i]) + LE(Wrap(ws[i]), 8)
  {
    hide LE;
    assert ws[..i + 1] == ws[..i] + [ws[i]];
    WordsConcat(ws[..i], [ws[i]]);
    assert [ws[i]][1..] == [];
  }

  lemma {:induction false} StoreWords(m: Mem, a: int, x: seq<int>, y: seq<int>)
    ensures Store(Store(m, a, WordBytes(x)), a + 8 * |x|, WordBytes(y)) == Store(m, a, WordBytes(x + y))
  {
    hide Store, WordBytes;
    WordsConcat(x, y);
    StoreConcat(m, a, WordBytes(x), WordBytes(y));
  }

  // ---- the result as one store for the strings and one for the pointers ----

  function Pointers(base: nat, size: nat, argv: seq<CString>, envp: seq<CString>): (p: seq<int>)
    requires |argv| > 0
    ensures |p| == |argv| + |envp| + 1
  {
    Starts(AllStrings(argv, envp), StringBase(base, size, argv, envp))
  }

  function Block(base: nat, size: nat, argv: seq<CString>, envp: seq<CString>): seq<int>
    requires |argv| > 0
  {
    var p := Pointers(base, size, argv, envp);
    PointerBlock(|argv|, p[..|argv|], p[|argv|..|argv| + |envp|], p[|argv| + |envp|])
  }

  function Built(m: Mem, base: nat, size: nat, argv: seq<CString>, envp: seq<CString>): Mem
    requires |argv| > 0
  {
    var strings := Store(m, StringBase(base, size, argv, envp), Blob(AllStrings(argv, envp)));
    Store(strings, StackTop(base, size, argv, envp), WordBytes(Block(base, size, argv, envp)))
  }

  lemma {:induction false} StartsConcat(a: seq<CString>, b: seq<CString>, p: int)
    ensures Starts(a + b, p) == Starts(a, p) + Starts(b, p + |Blob(a)|)
    decreases |a|
  {
    if a == [] {
      assert a + b == b;
    } else {
      assert (a + b)[1..] == a[1..] + b;
      StartsConcat(a[1..], b, p + |a[0]| + 1);
    }
  }

  lemma {:induction false} ThreeStores(m: Mem, a: int, argv: seq<CString>, envp: seq<CString>)
    requires |argv| > 0
    ensures var b := a + |Blob(argv)|;
            var c := b + |Blob(envp)|;
            && Store(Store(Store(m, a, Blob(argv)), b, Blob(envp)), c, argv[0] + [0]) ==
                Store(m, a, Blob(AllStrings(argv, envp)))
            && var ptrs := Starts(AllStrings(argv, envp), a);
               ptrs[..|argv|] == Starts(argv, a) && ptrs[|argv|..|argv| + |envp|] == Starts(envp, b) &&
               ptrs[|argv| + |envp|] == c
  {
    hide Store, Blob;
    BlobParts(argv, envp);
    StoreConcat(m, a, Blob(argv), Blob(envp));
    StoreConcat(m, a, Blob(argv) + Blob(envp), argv[0] + [0]);
    StartsConcat(argv + envp, [argv[0]], a);
    StartsConcat(argv, envp, a);
    BlobConcat(argv, envp);
  }

  // ---- reading it back ----

  lemma {:induction false} WordSlice(ws: seq<int>, k: nat)
    requires k < |ws|
    ensures WordBytes(ws)[8 * k..8 * k + 8] == LE(Wrap(ws[k]), 8)
  {
    hide LE;
    if k > 0 {
      WordSlice(ws[1..], k - 1);
      assert WordBytes(ws)[8 * k..8 * k + 8] == WordBytes(ws[1..])[8 * (k - 1)..8 * (k - 1) + 8];
    }
  }

  /** A word of the block reads back, whatever else is in memory. */
  lemma {:induction false} WordAt(m: Mem, a: int, ws: seq<int>, k: nat)
    requires k < |ws| && 0 <= ws[k] < TWO64
    ensures Load64(Store(m, a, WordBytes(ws)), a + 8 * k) == ws[k]
  {
    hide Store, Load64, LE, WordBytes;
    var m' := Store(m, a, WordBytes(ws));
    var q := a + 8 * k;
    WordSlice(ws, k);
    var m2 := Store64(m, q, ws[k]);
    assert forall x :: q <= x < q + 8 ==> Get(m', x) == WordBytes(ws)[8 * k..8 * k + 8][x - q];
    Load64Frame(m2, m', q);
    Load64Store64(m, q, ws[k]);
  }

  /** The NUL-terminated string `s` sits at `p`. */
  predicate HoldsString(m: Mem, p: int, s: CString) {
    Slice(m, p, |s| + 1) == s + [0]
  }

  lemma {:induction false} SliceShift(x: seq<byte>, y: seq<byte>, i: nat, n: nat)
    requires i + n <= |y|
    ensures (x + y)[|x| + i..|x| + i + n] == y[i..i + n]
  {
  }

  /** The kth string lies inside the blob, and starts where Starts says. */
  lemma {:induction false} StringSlice(strs: seq<CString>, a: int, k: nat)
    requires k < |strs|
    ensures var off := Starts(strs, a)[k] - a;
            0 <= off && off + |strs[k]| + 1 <= |Blob(strs)| && Blob(strs)[off..off + |strs[k]| + 1] == strs[k] + [0]
    decreases k
  {
    if k > 0 {
      var b := a + |strs[0]| + 1;
      StringSlice(strs[1..], b, k - 1);
      SliceShift(strs[0] + [0], Blob(strs[1..]), Starts(strs, a)[k] - b, |strs[k]| + 1);
    } else {
      assert Blob(strs)[..|strs[0]| + 1] == strs[0] + [0];
    }
  }

  lemma {:induction false} StringAt(m: Mem, m': Mem, a: int, strs: seq<CString>, k: nat)
    requires k < |strs|
    requires forall x :: a <= x < a + |Blob(strs)| ==> Get(m', x) == Get(Store(m, a, Blob(strs)), x)
    ensures HoldsString(m', Starts(strs, a)[k], strs[k])
  {
    hide Store, Blob, Starts;
    StringSlice(strs, a, k);
    var p := Starts(strs, a)[k];
    var off := p - a;
    forall i | 0 <= i < |strs[k]| + 1
      ensures Slice(m', p, |strs[k]| + 1)[i] == (strs[k] + [0])[i]
    {
      assert Blob(strs)[off..off + |strs[k]| + 1][i] == Blob(strs)[off + i];
    }
  }

  /** Both areas aligned, in order, and inside the mapping whenever the bottom of the pointer block is; each as
    * high as its alignment lets it be. */
  lemma {:induction false} Layout(base: nat, size: nat, argv: seq<CString>, envp: seq<CString>)
    requires |argv| > 0
    ensures var rsp, strings := StackTop(base, size, argv, envp), StringBase(base, size, argv, envp);
            && rsp % 16 == 0
            && rsp + 8 * (|argv| + |envp| + 5) <= strings < rsp + 8 * (|argv| + |envp| + 5) + 16
            && strings % 16 == 0
            && strings + |Blob(AllStrings(argv, envp))| <= (base + size) / 16 * 16
            && (base + size) / 16 * 16 < strings + |Blob(AllStrings(argv, envp))| + 16
  {
    hide Blob;
  }

  /** Any mapping with 45 spare bytes for the three alignments is large enough. */
  lemma {:induction false} RoomSuffices(base: nat, size: nat, argv: seq<CString>, envp: seq<CString>)
    requires |argv| > 0
    requires |Blob(AllStrings(argv, envp))| + 8 * (|argv| + |envp| + 5) + 45 <= size
    ensures base <= StackTop(base, size, argv, envp)
  {
    hide Blob;
  }

  lemma {:induction false} StartBounds(strs: seq<CString>, a: int, k: nat)
    requires k < |strs|
    ensures a <= Starts(strs, a)[k] < a + |Blob(strs)|
  {
    StringSlice(strs, a, k);
  }

  datatype Registers = Registers(rdi: u64, rsi: int, rdx: int, rcx: int)

  function EnvpOf(rsp: int, argc: int): int { rsp + 8 + (argc + 1) * 8 }

  /** The register-loading walk; `n` bounds the distance to a NULL after envp. */
  method Walk(mem: Mem, rsp: int, ghost n: nat) returns (r: Registers)
    requires Load64(mem, EnvpOf(rsp, Load64(mem, rsp)) + 8 * n) == 0
    requires EnvpOf(rsp, Load64(mem, rsp)) + 8 * (n + 1) < TWO64
    ensures r.rdi == Load64(mem, rsp) && r.rsi == rsp + 8 && r.rdx == EnvpOf(rsp, r.rdi)
    ensures r.rdx < r.rcx <= r.rdx + 8 * (n + 1) && (r.rcx - r.rdx) % 8 == 0
    ensures Load64(mem, r.rcx - 8) == 0
    ensures forall k :: 0 <= k && r.rdx + 8 * (k + 1) < r.rcx ==> Load64(mem, r.rdx + 8 * k) != 0
  {
    hide Load64;
    var rdi := Load64(mem, rsp);
    var rsi := rsp + 8;
    var rax: int := rdi;
    rax := rax + 1;
    rax := rax * 8;
    var rdx := 8 + rsp + rax;
    var rcx := rdx + 8;
    ghost var i: nat := 0;
    while Load64(mem, rcx - 8) != 0
      invariant 0 <= i <= n && rcx == rdx + 8 * i + 8
      invariant forall k :: 0 <= k < i ==> Load64(mem, rdx + 8 * k) != 0
      decreases n - i
    {
      rcx := rcx + 8;
      i := i + 1;
    }
    r := Registers(rdi, rsi, rdx, rcx);
  }

  /** What a C main function expects of its four arguments. */
  ghost predicate MainArguments(m: Mem, r: Registers, argv: seq<CString>, envp: seq<CString>)
    requires |argv| > 0
  {
    && r.rdi == |argv|
    && (forall i :: 0 <= i < |argv| ==> HoldsString(m, Load64(m, r.rsi + 8 * i), argv[i]))
    && Load64(m, r.rsi + 8 * |argv|) == 0
    && (forall i :: 0 <= i < |envp| ==> HoldsString(m, Load64(m, r.rdx + 8 * i), envp[i]))
    && Load64(m, r.rdx + 8 * |envp|) == 0
    && HoldsString(m, Load64(m, r.rcx), argv[0])
    && Load64(m, r.rcx + 8) == 0
  }

  /** The arguments fit the mapping. */
  predicate Fits(base: nat, size: nat, argv: seq<CString>, envp: seq<CString>)
  {
    0 < base && base + size < TWO64 && 0 < |argv| < MAX_ARGC && base <= StackTop(base, size, argv, envp)
  }

  lemma {:induction false} PointerBounds(base: nat, size: nat, argv: seq<CString>, envp: seq<CString>, k: nat)
    requires Fits(base, size, argv, envp) && k < |argv| + |envp| + 1
    ensures 0 < Pointers(base, size, argv, envp)[k] < TWO64
  {
    hide Blob, Starts, StackTop, StringBase;
    Layout(base, size, argv, envp);
    StartBounds(AllStrings(argv, envp), StringBase(base, size, argv, envp), k);
  }

  lemma {:induction false} BuiltWord(m: Mem, base: nat, size: nat, argv: seq<CString>, envp: seq<CString>, k: nat)
    requires Fits(base, size, argv, envp) && k < |Block(base, size, argv, envp)|
    requires 0 <= Block(base, size, argv, envp)[k] < TWO64
    ensures Load64(Built(m, base, size, argv, envp), StackTop(base, size, argv, envp) + 8 * k) ==
              Block(base, size, argv, envp)[k]
  {
    hide Blob, Starts, StackTop, StringBase, PointerBlock, WordBytes, Store, Load64;
    var a, all := StringBase(base, size, argv, envp), AllStrings(argv, envp);
    WordAt(Store(m, a, Blob(all)), StackTop(base, size, argv, envp), Block(base, size, argv, envp), k);
  }

  lemma {:induction false} BuiltString(m: Mem, base: nat, size: nat, argv: seq<CString>, envp: seq<CString>, k: nat)
    requires |argv| > 0 && k < |argv| + |envp| + 1
    ensures HoldsString(Built(m, base, size, argv, envp), Pointers(base, size, argv, envp)[k], AllStrings(argv,
              envp)[k])
  {
    hide Blob, Starts, StackTop, StringBase, WordBytes, Store, HoldsString;
    Layout(base, size, argv, envp);
    StringAt(m, Built(m, base, size, argv, envp), StringBase(base, size, argv, envp), AllStrings(argv, envp), k);
  }

  lemma {:induction false} BuiltPointer(m: Mem, base: nat, size: nat, argv: seq<CString>, envp: seq<CString>, k: nat)
    requires Fits(base, size, argv, envp) && k < |argv| + |envp| + 1
    ensures var j := if k < |argv| then k + 1 else if k < |argv| + |envp| then k + 2 else k + 3;
            var w := Load64(Built(m, base, size, argv, envp), StackTop(base, size, argv, envp) + 8 * j);
            w != 0 && HoldsString(Built(m, base, size, argv, envp), w, AllStrings(argv, envp)[k])
  {
    hide Blob, Starts, StackTop, StringBase, WordBytes, Store, HoldsString, Built, Pointers, Load64;
    var j := if k < |argv| then k + 1 else if k < |argv| + |envp| then k + 2 else k + 3;
    PointerBounds(base, size, argv, envp, k);
    assert Block(base, size, argv, envp)[j] == Pointers(base, size, argv, envp)[k];
    BuiltWord(m, base, size, argv, envp, j);
    BuiltString(m, base, size, argv, envp, k);
  }

  lemma {:induction false} BuiltNulls(m: Mem, base: nat, size: nat, argv: seq<CString>, envp: seq<CString>)
    requires Fits(base, size, argv, envp)
    ensures var m', rsp := Built(m, base, size, argv, envp), StackTop(base, size, argv, envp);
            && Load64(m', rsp) == |argv|
            && Load64(m', rsp + 8 * (1 + |argv|)) == 0
            && Load64(m', rsp + 8 * (2 + |argv| + |envp|)) == 0
            && Load64(m', rsp + 8 * (4 + |argv| + |envp|)) == 0
  {
    hide Blob, Starts, StackTop, StringBase, WordBytes, Store, HoldsString, Built, Pointers, Load64;
    BuiltWord(m, base, size, argv, envp, 0);
    BuiltWord(m, base, size, argv, envp, 1 + |argv|);
    BuiltWord(m, base, size, argv, envp, 2 + |argv| + |envp|);
    BuiltWord(m, base, size, argv, envp, 4 + |argv| + |envp|);
  }

  /** Registers that point at the four vectors find every argument. */
  lemma {:induction false} BuiltArguments(m: Mem, base: nat, size: nat, argv: seq<CString>, envp: seq<CString>,
                                          r: Registers)
    requires Fits(base, size, argv, envp)
    requires r.rdi == |argv| && r.rsi == StackTop(base, size, argv, envp) + 8
    requires r.rdx == r.rsi + 8 * (|argv| + 1) && r.rcx == r.rdx + 8 * (|envp| + 1)
    ensures MainArguments(Built(m, base, size, argv, envp), r, argv, envp)
  {
    hide Blob, Starts, StackTop, StringBase, WordBytes, Store, HoldsString, Built, Pointers, Load64;
    var m' := Built(m, base, size, argv, envp);
    BuiltNulls(m, base, size, argv, envp);
    forall i | 0 <= i < |argv|
      ensures HoldsString(m', Load64(m', r.rsi + 8 * i), argv[i])
    {
      BuiltPointer(m, base, size, argv, envp, i);
    }
    forall i | 0 <= i < |envp|
      ensures HoldsString(m', Load64(m', r.rdx + 8 * i), envp[i])
    {
      BuiltPointer(m, base, size, argv, envp, |argv| + i);
    }
    BuiltPointer(m, base, size, argv, envp, |argv| + |envp|);
  }

  lemma {:induction false} WalkStops(m: Mem, base: nat, size: nat, argv: seq<CString>, envp: seq<CString>)
    requires Fits(base, size, argv, envp)
    ensures var m', rdx := Built(m, base, size, argv, envp), EnvpOf(StackTop(base, size, argv, envp), |argv|);
            && Load64(m', StackTop(base, size, argv, envp)) == |argv|
            && Load64(m', rdx + 8 * |envp|) == 0
            && (forall k :: 0 <= k < |envp| ==> Load64(m', rdx + 8 * k) != 0)
            && rdx + 8 * (|envp| + 1) < TWO64
  {
    hide Blob, Starts, StackTop, StringBase, WordBytes, Store, HoldsString, Built, Pointers, Load64;
    var m', rdx := Built(m, base, size, argv, envp), EnvpOf(StackTop(base, size, argv, envp), |argv|);
    BuiltNulls(m, base, size, argv, envp);
    forall k | 0 <= k < |envp| ensures Load64(m', rdx + 8 * k) != 0 {
      BuiltPointer(m, base, size, argv, envp, |argv| + k);
    }
    Layout(base, size, argv, envp);
  }

  /** Build the stack in a mapping, then load the argument registers from it. */
  method EnterMain(s: Stack, base: nat, size: nat, argv: seq<CString>, envp: seq<CString>)
    returns (rsp: int, r: Registers)
    requires Fits(base, size, argv, envp)
    modifies s
    ensures MainArguments(s.mem, r, argv, envp)
    ensures rsp % 16 == 0 && base <= rsp
    ensures StringsWithin(s.mem, r, argv, envp, rsp + 8 * PointerCount(|argv|, |envp|), base + size)
    ensures forall x :: x < base || base + size <= x ==> Get(s.mem, x) == Get(old(s.mem), x)
  {
    hide Blob, Starts, StackTop, StringBase, WordBytes, Store, HoldsString, Pointers, Load64, MainArguments, Built;
    ghost var m := s.mem;
    var top := s.SetupStack(base, size, argv, envp);
    rsp := top.value;
    WalkStops(m, base, size, argv, envp);
    r := Walk(s.mem, rsp, |envp|);
    WalkEnd(s.mem, r, |envp|);
    BuiltArguments(m, base, size, argv, envp, r);
    Layout(base, size, argv, envp);
    BuiltWithin(m, base, size, argv, envp, r);
    BuiltFrame(m, base, size, argv, envp);
  }

  lemma {:induction false} WalkEnd(m: Mem, r: Registers, n: nat)
    requires r.rdx < r.rcx <= r.rdx + 8 * (n + 1) && (r.rcx - r.rdx) % 8 == 0
    requires Load64(m, r.rcx - 8) == 0
    requires forall k :: 0 <= k < n ==> Load64(m, r.rdx + 8 * k) != 0
    ensures r.rcx == r.rdx + 8 * (n + 1)
  {
    hide Load64;
    var k := (r.rcx - r.rdx) / 8 - 1;
    assert r.rcx - 8 == r.rdx + 8 * k;
  }

  function BlockEnd(base: nat, size: nat, argv: seq<CString>, envp: seq<CString>): int
    requires |argv| > 0
  {
    StackTop(base, size, argv, envp) + 8 * PointerCount(|argv|, |envp|)
  }

  /** Every string the arguments point at lies between `lo` and `hi`. */
  ghost predicate StringsWithin(m: Mem, r: Registers, argv: seq<CString>, envp: seq<CString>, lo: int, hi: int)
    requires |argv| > 0
  {
    && (forall i :: 0 <= i < |argv| ==> Inside(Load64(m, r.rsi + 8 * i), argv[i], lo, hi))
    && (forall i :: 0 <= i < |envp| ==> Inside(Load64(m, r.rdx + 8 * i), envp[i], lo, hi))
    && Inside(Load64(m, r.rcx), argv[0], lo, hi)
  }

  predicate Inside(p: int, s: CString, lo: int, hi: int) { lo <= p && p + |s| + 1 <= hi }

  lemma {:induction false} BuiltFrame(m: Mem, base: nat, size: nat, argv: seq<CString>, envp: seq<CString>)
    requires Fits(base, size, argv, envp)
    ensures forall x :: x < base || base + size <= x ==> Get(Built(m, base, size, argv, envp), x) == Get(m, x)
  {
    hide Blob, Starts, StackTop, StringBase, WordBytes, Store;
    Layout(base, size, argv, envp);
  }

  lemma {:induction false} BuiltInside(m: Mem, base: nat, size: nat, argv: seq<CString>, envp: seq<CString>, k: nat)
    requires Fits(base, size, argv, envp) && k < |argv| + |envp| + 1
    ensures var j := if k < |argv| then k + 1 else if k < |argv| + |envp| then k + 2 else k + 3;
            var w := Load64(Built(m, base, size, argv, envp), StackTop(base, size, argv, envp) + 8 * j);
            Inside(w, AllStrings(argv, envp)[k], BlockEnd(base, size, argv, envp), base + size)
  {
    hide Blob, Starts, StackTop, StringBase, WordBytes, Store, HoldsString, Built, Load64;
    var j := if k < |argv| then k + 1 else if k < |argv| + |envp| then k + 2 else k + 3;
    PointerBounds(base, size, argv, envp, k);
    assert Block(base, size, argv, envp)[j] == Pointers(base, size, argv, envp)[k];
    BuiltWord(m, base, size, argv, envp, j);
    StringSlice(AllStrings(argv, envp), StringBase(base, size, argv, envp), k);
    Layout(base, size, argv, envp);
  }

  lemma {:induction false} BuiltWithin(m: Mem, base: nat, size: nat, argv: seq<CString>, envp: seq<CString>,
                                       r: Registers)
    requires Fits(base, size, argv, envp)
    requires r.rdi == |argv| && r.rsi == StackTop(base, size, argv, envp) + 8
    requires r.rdx == r.rsi + 8 * (|argv| + 1) && r.rcx == r.rdx + 8 * (|envp| + 1)
    ensures StringsWithin(Built(m, base, size, argv, envp), r, argv, envp, BlockEnd(base, size, argv, envp),
              base + size)
  {
    hide Blob, Starts, StackTop, StringBase, WordBytes, Store, Built, Pointers, Load64, Inside;
    var m', lo, hi := Built(m, base, size, argv, envp), BlockEnd(base, size, argv, envp), base + size;
    forall i | 0 <= i < |argv|
      ensures Inside(Load64(m', r.rsi + 8 * i), argv[i], lo, hi)
    {
      BuiltInside(m, base, size, argv, envp, i);
    }
    forall i | 0 <= i < |envp|
      ensures Inside(Load64(m', r.rdx + 8 * i), envp[i], lo, hi)
    {
      BuiltInside(m, base, size, argv, envp, |argv| + i);
    }
    BuiltInside(m, base, size, argv, envp, |argv| + |envp|);
  }
}
