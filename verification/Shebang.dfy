/** Following "#!" chains to an executable, and the argument vector that results. */
module Shebang {
  import opened Options

  type Path = string

  const MAX_HOPS := 5
  const ARGV_MAX := 1024
  const LINE_MAX := 511

  // ---- one script ----

  predicate Blank(ch: char) { ch == ' ' || ch == '\t' }

  /** Where the interpreter token stops. */
  predicate Stop(ch: char) { ch == ' ' || ch == '\r' || ch == '\n' || ch == '\0' }

  /** The token occupies line[p..q]: after "#!" and blanks, up to a stop or the end of what was read. */
  predicate TokenAt(line: string, p: nat, q: nat) {
    && 2 <= p < q <= |line|
    && line[0] == '#' && line[1] == '!'
    && (forall i :: 2 <= i < p ==> line[i] == ' ' || line[i] == '\t')
    && line[p] != ' ' && line[p] != '\t'
    && (forall i :: p <= i < q ==> line[i] !in {' ', '\r', '\n', '\0'})
    && (q < |line| ==> line[q] in {' ', '\r', '\n', '\0'})
  }

  function FirstLine(content: string): string {
    if |content| <= LINE_MAX then content else content[..LINE_MAX]
  }

  function SkipBlanks(line: string, i: nat): (p: nat)
    requires i <= |line|
    ensures i <= p <= |line| && (forall k :: i <= k < p ==> Blank(line[k])) && (p < |line| ==> !Blank(line[p]))
    decreases |line| - i
  {
    if i < |line| && Blank(line[i]) then SkipBlanks(line, i + 1) else i
  }

  function FindStop(line: string, i: nat): (q: nat)
    requires i <= |line|
    ensures i <= q <= |line| && (forall k :: i <= k < q ==> !Stop(line[k])) && (q < |line| ==> Stop(line[q]))
    decreases |line| - i
  {
    if i < |line| && !Stop(line[i]) then FindStop(line, i + 1) else i
  }

  function Token(line: string): (r: Option<string>) {
    if |line| <= 2 || line[0] != '#' || line[1] != '!' then None
    else
      var p := SkipBlanks(line, 2);
      var q := FindStop(line, p);
      if p == q then None else Some(line[p..q])
  }

  /** The parser finds a token exactly when the line has one, and finds that one. */
  lemma {:induction false} TokenIff(line: string)
    ensures Token(line).Some? <==> exists p: nat, q: nat :: TokenAt(line, p, q)
    ensures forall p: nat, q: nat :: TokenAt(line, p, q) ==> Token(line) == Some(line[p..q])
  {
    if Token(line).Some? {
      var p := SkipBlanks(line, 2);
      assert TokenAt(line, p, FindStop(line, p));
    }
    forall p: nat, q: nat | TokenAt(line, p, q)
      ensures Token(line) == Some(line[p..q])
    {
      TokenUnique(line, p, q);
    }
  }

  lemma {:induction false} TokenUnique(line: string, p: nat, q: nat)
    requires TokenAt(line, p, q)
    ensures Token(line) == Some(line[p..q])
  {
    var p', q' := SkipBlanks(line, 2), FindStop(line, p);
    assert !(p' < p) && !(p < p');
    assert !(q' < q) && !(q < q');
  }

  /** macify_entry_parse_shebang on what was read from the file. */
  method ParseShebang(content: string) returns (r: Option<string>)
    ensures r == Token(FirstLine(content))
  {
    var line := FirstLine(content);
    if |line| <= 2 || line[0] != '#' || line[1] != '!' {
      return None;
    }
    var nl := 0;
    while nl < |line| && line[nl] != '\r' && line[nl] != '\n' && line[nl] != '\0'
      invariant nl <= |line|
      invariant forall k :: 0 <= k < nl ==> line[k] != '\r' && line[k] != '\n' && line[k] != '\0'
    {
      nl := nl + 1;
    }
    var p := 2;
    while p < nl && Blank(line[p])
      invariant 2 <= p <= nl
      invariant SkipBlanks(line, 2) == SkipBlanks(line, p)
    {
      p := p + 1;
    }
    var sp := p;
    while sp < nl && line[sp] != ' '
      invariant p <= sp <= nl
      invariant FindStop(line, p) == FindStop(line, sp)
    {
      sp := sp + 1;
    }
    if p == nl { return None; }
    r := Some(line[p..sp]);
  }

  // ---- the chain ----

  datatype File = MachO | Text(content: string)

  /** The files that exist, and which guest paths translate into the prefix. */
  datatype World = World(files: map<Path, File>, prefix: map<Path, Path>) {
    predicate Exists(p: Path) { p in files }
    predicate IsMachO(p: Path) { p in files && files[p].MachO? }

    function Interpreter(p: Path): Option<string> {
      if p in files && files[p].Text? then Token(FirstLine(files[p].content)) else None
    }

    /** The prefix copy of a guest path when there is one. */
    function Translated(p: Path): Option<Path> {
      if p in prefix && prefix[p] in files then Some(prefix[p]) else None
    }

    function HostOf(token: Path): Path {
      if Translated(token).Some? then Translated(token).value else token
    }

    function EntryOf(path: Path): Path {
      if !Exists(path) && Translated(path).Some? then Translated(path).value else path
    }

    /** The interpreter named by the file at `eff`, when it is a script. */
    function Next(eff: Path): Option<string> { if IsMachO(eff) then None else Interpreter(eff) }
  }

  /** The interpreter tokens met in at most `n` hops from `eff`. */
  function Tokens(w: World, eff: Path, n: nat): (toks: seq<string>)
    ensures |toks| <= n
    decreases n
  {
    if n == 0 || w.Next(eff).None? then []
    else [w.Next(eff).value] + Tokens(w, w.HostOf(w.Next(eff).value), n - 1)
  }

  function Target(w: World, eff: Path, toks: seq<string>): Path {
    if toks == [] then eff else w.HostOf(toks[|toks| - 1])
  }

  /** The chain stops where the last target names no interpreter, or at the hop limit. */
  lemma {:induction false} TokensStop(w: World, eff: Path, n: nat)
    ensures var toks := Tokens(w, eff, n);
            |toks| == n || w.Next(Target(w, eff, toks)).None?
    decreases n
  {
    hide World.Next, World.HostOf;
    if n > 0 && w.Next(eff).Some? {
      TokensStop(w, w.HostOf(w.Next(eff).value), n - 1);
    }
  }

  lemma {:induction false} TokensExtend(w: World, eff: Path, n: nat)
    ensures var toks := Tokens(w, eff, n); var next := w.Next(Target(w, eff, toks));
            Tokens(w, eff, n + 1) == if |toks| == n && next.Some? then toks + [next.value] else toks
    decreases n
  {
    hide World.Next, World.HostOf;
    if n > 0 && w.Next(eff).Some? {
      TokensExtend(w, w.HostOf(w.Next(eff).value), n - 1);
    }
  }

  // ---- the chain as a relation ----

  /** The prefix copy of a guest path, or the path itself when there is none. */
  function Spelled(w: World, p: Path): Path {
    if p in w.prefix && w.prefix[p] in w.files then w.prefix[p] else p
  }

  /** The file at `e` is a text whose first 511 characters start with an interpreter line that names `tok`. */
  ghost predicate Names(w: World, e: Path, tok: string) {
    e in w.files && w.files[e].Text? &&
    var c := w.files[e].content;
    var line := if |c| <= 511 then c else c[..511];
    exists p: nat, q: nat :: TokenAt(line, p, q) && tok == line[p..q]
  }

  /** Step `k` of a chain: the file names an interpreter, and the next file is where that is found. */
  ghost predicate LinkAt(w: World, effs: seq<Path>, toks: seq<string>, k: nat) {
    k + 1 < |effs| && k < |toks| && Names(w, effs[k], toks[k]) && effs[k + 1] == Spelled(w, toks[k])
  }

  /** The files and names met from `path` on: the entry itself, or its copy in the prefix when only that exists;
    * then link by link, until a file names no interpreter or five have been named. */
  ghost predicate IsChain(w: World, path: Path, effs: seq<Path>, toks: seq<string>) {
    && |effs| == |toks| + 1 && |toks| <= 5
    && effs[0] == (if path !in w.files then Spelled(w, path) else path)
    && (forall k :: 0 <= k < |toks| ==> LinkAt(w, effs, toks, k))
    && (|toks| < 5 ==> forall tok :: !Names(w, effs[|toks|], tok))
  }

  lemma {:induction false} NextIff(w: World, e: Path, tok: string)
    ensures w.Next(e) == Some(tok) <==> Names(w, e, tok)
    ensures w.Next(e).None? ==> !Names(w, e, tok)
  {
    if e in w.files && w.files[e].Text? {
      var c := w.files[e].content;
      var line := if |c| <= 511 then c else c[..511];
      assert line == FirstLine(c) && w.Next(e) == Token(line);
      TokenIff(line);
      if w.Next(e) == Some(tok) {
        var p: nat, q: nat :| TokenAt(line, p, q);
        assert tok == line[p..q];
        assert Names(w, e, tok);
      }
    }
  }

  lemma {:induction false} ChainFrom(w: World, eff: Path, n: nat) returns (effs: seq<Path>)
    ensures var toks := Tokens(w, eff, n);
            && |effs| == |toks| + 1 && effs[0] == eff && effs[|toks|] == Target(w, eff, toks)
            && (forall k :: 0 <= k < |toks| ==> LinkAt(w, effs, toks, k))
            && (|toks| < n ==> forall tok :: !Names(w, effs[|toks|], tok))
    decreases n
  {
    hide Names, World.Next, World.HostOf;
    if n == 0 || w.Next(eff).None? {
      effs := [eff];
      forall tok ensures w.Next(eff).None? ==> !Names(w, eff, tok) { NextIff(w, eff, tok); }
    } else {
      var tok := w.Next(eff).value;
      var rest := ChainFrom(w, w.HostOf(tok), n - 1);
      effs := [eff] + rest;
      NextIff(w, eff, tok);
      HostIs(w, tok);
      LinksCons(w, eff, rest, tok, Tokens(w, w.HostOf(tok), n - 1));
    }
  }

  lemma {:induction false} LinksCons(w: World, e: Path, effs: seq<Path>, tok: string, toks: seq<string>)
    requires |effs| == |toks| + 1 && Names(w, e, tok) && effs[0] == Spelled(w, tok)
    requires forall k :: 0 <= k < |toks| ==> LinkAt(w, effs, toks, k)
    ensures forall k :: 0 <= k < |toks| + 1 ==> LinkAt(w, [e] + effs, [tok] + toks, k)
  {
    hide Names, Spelled;
    forall k | 0 <= k < |toks| + 1 ensures LinkAt(w, [e] + effs, [tok] + toks, k) {
      if k > 0 { assert LinkAt(w, effs, toks, k - 1); }
    }
  }

  /** The chain that is followed is a chain, and the file that is run is its last. */
  lemma {:induction false} FollowsChain(w: World, path: Path) returns (effs: seq<Path>)
    ensures var toks := Tokens(w, w.EntryOf(path), MAX_HOPS);
            IsChain(w, path, effs, toks) && effs[|toks|] == Target(w, w.EntryOf(path), toks)
  {
    hide Names, Tokens, Target, LinkAt;
    effs := ChainFrom(w, w.EntryOf(path), MAX_HOPS);
  }

  /** There is no other chain. */
  lemma {:induction false} ChainUnique(w: World, path: Path, a: seq<Path>, s: seq<string>, b: seq<Path>, t: seq<string>)
    requires IsChain(w, path, a, s) && IsChain(w, path, b, t)
    ensures a == b && s == t
  {
    hide Names, Spelled;
    PrefixSame(w, path, a, s, b, t, if |s| <= |t| then |s| else |t|);
    if |s| < |t| {
      ChainNames(w, path, b, t, |s|);
    } else if |t| < |s| {
      ChainNames(w, path, a, s, |t|);
    }
  }

  lemma {:induction false} ChainNames(w: World, path: Path, effs: seq<Path>, toks: seq<string>, k: nat)
    requires IsChain(w, path, effs, toks) && k < |toks|
    ensures Names(w, effs[k], toks[k])
  {
    hide Names, Spelled;
    assert LinkAt(w, effs, toks, k);
  }

  lemma {:induction false} PrefixSame(w: World, path: Path, a: seq<Path>, s: seq<string>, b: seq<Path>, t: seq<string>,
                                      n: nat)
    requires IsChain(w, path, a, s) && IsChain(w, path, b, t) && n <= |s| && n <= |t|
    ensures a[..n + 1] == b[..n + 1] && s[..n] == t[..n]
    decreases n
  {
    hide Names, Spelled;
    if n > 0 {
      PrefixSame(w, path, a, s, b, t, n - 1);
      assert LinkAt(w, a, s, n - 1) && LinkAt(w, b, t, n - 1);
      assert a[..n][n - 1] == a[n - 1] && b[..n][n - 1] == b[n - 1];
      NamesOne(w, a[n - 1], s[n - 1], t[n - 1]);
      assert a[..n + 1] == a[..n] + [a[n]] && b[..n + 1] == b[..n] + [b[n]];
      assert s[..n] == s[..n - 1] + [s[n - 1]] && t[..n] == t[..n - 1] + [t[n - 1]];
    }
  }

  lemma {:induction false} NamesOne(w: World, e: Path, a: string, b: string)
    requires Names(w, e, a) && Names(w, e, b)
    ensures a == b
  {
    hide Names;
    NextIff(w, e, a);
    NextIff(w, e, b);
  }

  // ---- the argument vector ----

  function Rest(argv: seq<string>): seq<string> { if argv == [] then [] else argv[1..] }

  /** One kernel-style hop: the interpreter, the script it was named in, then the other arguments. */
  function Hop(argv: seq<string>, script: string, interp: string): seq<string> {
    [interp, script] + Rest(argv)
  }

  function Hops(argv: seq<string>, script: string, toks: seq<string>): seq<string>
    decreases |toks|
  {
    if toks == [] then argv else Hops(Hop(argv, script, toks[0]), toks[0], toks[1..])
  }

  function Reversed(s: seq<string>): (r: seq<string>)
    ensures |r| == |s|
  {
    if s == [] then [] else Reversed(s[1..]) + [s[0]]
  }

  lemma {:induction false} HopsShape(argv: seq<string>, script: string, toks: seq<string>)
    requires toks != []
    ensures Hops(argv, script, toks) == Reversed(toks) + [script] + Rest(argv)
    decreases |toks|
  {
    var one := Hop(argv, script, toks[0]);
    assert Rest(one) == [script] + Rest(argv);
    if |toks| == 1 {
      assert toks[1..] == [] && Reversed(toks) == [toks[0]];
    } else {
      HopsShape(one, toks[0], toks[1..]);
      assert Reversed(toks) == Reversed(toks[1..]) + [toks[0]];
    }
  }

  lemma {:induction false} ReversedAt(s: seq<string>, k: nat)
    requires k < |s|
    ensures Reversed(s)[k] == s[|s| - 1 - k]
  {
    if k < |s| - 1 { ReversedAt(s[1..], k); }
  }

  function Clip(argv: seq<string>): seq<string> { if |argv| <= ARGV_MAX - 1 then argv else argv[..ARGV_MAX - 1] }

  /** The vector is the iterated rewrite exactly when that fits the table. */
  lemma {:induction false} ClipIff(argv: seq<string>)
    ensures Clip(argv) == argv <==> |argv| <= ARGV_MAX - 1
  {
    assert |argv| > ARGV_MAX - 1 ==> |Clip(argv)| != |argv|;
  }

  /** The vector, argument by argument: the interpreters from the last named to the first, the script as it was
    * given, and the caller's arguments after its first, 1023 in all at most. */
  lemma {:induction false} ArgvMeaning(path: Path, toks: seq<string>, argvIn: seq<string>, k: nat)
    requires toks != []
    ensures var argv, n, rest := Clip(Hops(argvIn, path, toks)), |toks|, if argvIn == [] then 0 else |argvIn| - 1;
            && |argv| == (if n + 1 + rest <= 1023 then n + 1 + rest else 1023)
            && (k < |argv| ==>
                  argv[k] == if k < n then toks[n - 1 - k] else if k == n then path else argvIn[k - n])
  {
    HopsShape(argvIn, path, toks);
    if k < |toks| { ReversedAt(toks, k); }
  }

  /** macify_resolve_entry. */
  method ResolveEntry(w: World, path: Path, argvIn: seq<string>) returns (eff: Path, argv: seq<string>)
    ensures var toks := Tokens(w, w.EntryOf(path), MAX_HOPS);
            && eff == Target(w, w.EntryOf(path), toks)
            && argv == if toks == [] then argvIn else Clip(Hops(argvIn, path, toks))
  {
    var rawtok;
    eff, rawtok := FollowChain(w, path);
    if |rawtok| == 0 { return eff, argvIn; }
    HopsShape(argvIn, path, rawtok);
    argv := BuildArgv(path, rawtok, argvIn);
  }

  method ReadInterpreter(w: World, eff: Path) returns (next: Option<string>)
    ensures next == w.Next(eff)
  {
    if w.IsMachO(eff) || !w.Exists(eff) { return None; }
    next := ParseShebang(w.files[eff].content);
  }

  lemma {:induction false} NoHops(w: World, eff: Path)
    ensures Tokens(w, eff, 0) == []
  {
  }

  method FollowChain(w: World, path: Path) returns (eff: Path, rawtok: seq<string>)
    ensures rawtok == Tokens(w, w.EntryOf(path), MAX_HOPS)
    ensures eff == Target(w, w.EntryOf(path), rawtok)
  {
    eff := path;
    if !w.Exists(path) && w.Translated(path).Some? {
      eff := w.Translated(path).value;
    }
    eff, rawtok := HopLoop(w, eff, MAX_HOPS);
  }

  lemma {:induction false} HostIs(w: World, token: Path)
    ensures w.HostOf(token) == Spelled(w, token)
  {
  }

  method HopLoop(w: World, start: Path, limit: nat) returns (eff: Path, rawtok: seq<string>)
    ensures rawtok == Tokens(w, start, limit) && eff == Target(w, start, rawtok)
  {
    hide Tokens, World.HostOf, World.Next;
    eff, rawtok := start, [];
    var hops := 0;
    NoHops(w, start);
    while hops < limit
      invariant 0 <= hops <= limit && |rawtok| == hops
      invariant rawtok == Tokens(w, start, hops) && eff == Target(w, start, rawtok)
    {
      TokensExtend(w, start, hops);
      var next := ReadInterpreter(w, eff);
      if next.None? {
        TokensSettled(w, start, hops, limit);
        return;
      }
      rawtok := rawtok + [next.value];
      HostIs(w, next.value);
      eff := next.value;
      if eff in w.prefix && w.prefix[eff] in w.files { eff := w.prefix[eff]; }
      hops := hops + 1;
    }
  }

  lemma {:induction false} TokensSettled(w: World, eff: Path, n: nat, n': nat)
    requires n <= n' && w.Next(Target(w, eff, Tokens(w, eff, n))).None?
    ensures Tokens(w, eff, n') == Tokens(w, eff, n)
    decreases n' - n
  {
    hide Tokens, World.Next, Target;
    if n < n' {
      TokensExtend(w, eff, n);
      TokensSettled(w, eff, n + 1, n');
    }
  }

  method BuildArgv(path: Path, rawtok: seq<string>, argvIn: seq<string>) returns (av: seq<string>)
    requires 0 < |rawtok| <= MAX_HOPS
    ensures av == Clip(Reversed(rawtok) + [path] + Rest(argvIn))
  {
    av := BuildFront(path, rawtok);
    ghost var full := av + Rest(argvIn);
    ghost var n := |av|;
    var i := 1;
    while i < |argvIn| && |av| < ARGV_MAX - 1
      invariant 1 <= i && (|argvIn| > 0 ==> i <= |argvIn|)
      invariant |av| == n + i - 1 <= ARGV_MAX - 1 && |av| <= |full| && av == full[..|av|]
    {
      av := av + [argvIn[i]];
      i := i + 1;
    }
  }

  /** The interpreters from the last hop back to the first, then the script itself. */
  method BuildFront(path: Path, rawtok: seq<string>) returns (av: seq<string>)
    requires 0 < |rawtok|
    ensures av == Reversed(rawtok) + [path]
  {
    hide Reversed;
    var hops := |rawtok|;
    av := [rawtok[hops - 1]];
    ghost var front := Reversed(rawtok) + [path];
    ReversedAt(rawtok, 0);
    var h := hops - 1;
    while h >= 0
      invariant -1 <= h < hops && av == front[..hops - h]
    {
      if h > 0 { ReversedAt(rawtok, hops - h); }
      av := av + [if h == 0 then path else rawtok[h - 1]];
      h := h - 1;
    }
  }
}
