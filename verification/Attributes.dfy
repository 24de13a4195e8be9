/** Packing file attributes into a caller's buffer, and reading them back. */
module Attributes {
  import opened Memory
  import opened Options

  datatype AttrList = AttrList(bitmapcount: int, commonattr: bv32, volattr: bv32, dirattr: bv32, fileattr: bv32)

  datatype TimeSpec = TimeSpec(sec: int, nsec: int)
  datatype Stat = Stat(dev: int, ino: int, mode: nat, nlink: int, rdev: int, size: int, blksize: int, blocks: int,
                       atim: TimeSpec, mtim: TimeSpec, ctim: TimeSpec)

  /** A packed attribute: the 20-byte returned set, plain data, or a reference followed by its text. */
  datatype Field = Reserved | Fixed(data: seq<byte>) | Name(text: seq<byte>)
  datatype Entry = Entry(present: bool, field: Field)

  const BIT_MAP_COUNT := 5
  const VT_HFS := 16
  const CASE_SENSITIVE := 0x100
  const NAME_LIMIT := 255
  const SET_SIZE := 20
  const RETURNED_ATTRS: bv32 := 0x80000000
  const VOL_INFO: bv32 := 0x80000000

  function Align4(n: nat): nat { (n + 3) / 4 * 4 }

  function U32(v: int): (s: seq<byte>)
    ensures |s| == 4
  {
    LE(v % 0x1_0000_0000, 4)
  }

  function U64(v: int): (s: seq<byte>)
    ensures |s| == 8
  {
    LE(Wrap(v), 8)
  }

  function Time(t: TimeSpec): (s: seq<byte>)
    ensures |s| == 16
  {
    U64(t.sec) + U64(t.nsec)
  }

  function Zeros(n: nat): (s: seq<byte>)
    ensures |s| == n
  {
    seq(n, i => 0)
  }

  /** xnu vnode types, from the S_IFMT bits. */
  function VType(mode: nat): nat {
    var kind := mode / 0x1000 % 16;
    if kind == 8 then 1 else if kind == 4 then 2 else if kind == 6 then 3 else if kind == 2 then 4
    else if kind == 10 then 5 else if kind == 12 then 6 else if kind == 1 then 7 else 0
  }

  /** The bytes copied for a name: at most 255 of it and the byte after. */
  function NameText(name: seq<byte>): (text: seq<byte>)
    ensures 0 < |text| <= NAME_LIMIT + 1
  {
    if |name| > NAME_LIMIT then name[..NAME_LIMIT + 1] else name + [0]
  }

  predicate Has(mask: bv32, bit: bv32) { mask & bit != 0 }

  const COUNT := 23

  /** Which of the supported attributes were asked for, in packing order. */
  function Requested(al: AttrList): (r: seq<bool>)
    ensures |r| == COUNT
  {
    var c := al.commonattr;
    [Has(c, RETURNED_ATTRS), Has(c, 0x1), Has(c, 0x2), Has(c, 0x4),
     Has(c, 0x8), Has(c, 0x10), Has(c, 0x200), Has(c, 0x400),
     Has(c, 0x800), Has(c, 0x1000), Has(c, 0x4000), Has(c, 0x2000000),
     Has(c, 0x4000000), Has(al.volattr, VOL_INFO), Has(al.volattr, 0x20000), Has(al.dirattr, 0x1),
     Has(al.dirattr, 0x2), Has(al.fileattr, 0x1), Has(al.fileattr, 0x2), Has(al.fileattr, 0x4),
     Has(al.fileattr, 0x8), Has(al.fileattr, 0x20), Has(al.fileattr, 0x200)]
  }

  /** Their values, in the same order. */
  function Values(st: Stat, name: seq<byte>): (r: seq<Field>)
    ensures |r| == COUNT
  {
    [Reserved,
     Name(NameText(name)),
     Fixed(U64(st.dev)),
     Fixed(U64(st.dev)),
     Fixed(U32(VType(st.mode))),
     Fixed(U32(VT_HFS)),
     Fixed(Time(st.ctim)),
     Fixed(Time(st.mtim)),
     Fixed(Time(st.ctim)),
     Fixed(Time(st.atim)),
     Fixed(Zeros(32)),
     Fixed(U32(st.ino)),
     Fixed(U32(2)),
     Fixed(U32(0)),
     Fixed(U32(CASE_SENSITIVE) + Zeros(12) + U32(CASE_SENSITIVE) + Zeros(12)),
     Fixed(U32(if VType(st.mode) == 2 then 2 else 1)),
     Fixed(U32(0)),
     Fixed(U32(st.nlink)),
     Fixed(U64(st.size)),
     Fixed(U64(st.blocks * 512)),
     Fixed(U32(st.blksize)),
     Fixed(U64(st.rdev)),
     Fixed(U64(st.size))]
  }

  function Table(al: AttrList, st: Stat, name: seq<byte>): (es: seq<Entry>)
    ensures |es| == COUNT
  {
    seq(COUNT, i requires 0 <= i < COUNT => Entry(Requested(al)[i], Values(st, name)[i]))
  }

  /** Bytes written for a field. */
  function Bytes(f: Field): (s: seq<byte>)
    ensures |s| <= Size(f)
  {
    match f
    case Reserved => []
    case Fixed(data) => data
    case Name(text) => U32(8) + U32(|text|) + text
  }

  /** Room a field takes. */
  function Size(f: Field): nat {
    match f
    case Reserved => SET_SIZE
    case Fixed(data) => |data|
    case Name(text) => 8 + Align4(|text|)
  }

  function Total(es: seq<Entry>): nat {
    if es == [] then 0 else (if es[0].present then Size(es[0].field) else 0) + Total(es[1..])
  }

  // ---- the buffer ----

  function WriteAt(b: seq<byte>, off: nat, s: seq<byte>): (b': seq<byte>)
    requires off + |s| <= |b|
    ensures |b'| == |b|
    ensures forall x :: 0 <= x < |b| ==> b'[x] == if off <= x < off + |s| then s[x - off] else b[x]
  {
    b[..off] + s + b[off + |s|..]
  }

  /** The present fields written one after another from `off`. */
  function Pack(b: seq<byte>, off: nat, es: seq<Entry>): (b': seq<byte>)
    requires off + Total(es) <= |b|
    ensures |b'| == |b|
    decreases |es|
  {
    if es == [] then b
    else if !es[0].present then Pack(b, off, es[1..])
    else Pack(WriteAt(b, off, Bytes(es[0].field)), off + Size(es[0].field), es[1..])
  }

  /** The length word, and the returned set if asked for. */
  function Finish(b: seq<byte>, size: nat, hasSet: bool, set20: seq<byte>): (b': seq<byte>)
    requires 4 <= |b| && |set20| == SET_SIZE && (hasSet ==> 4 + SET_SIZE <= |b|)
    ensures |b'| == |b|
  {
    var b1 := WriteAt(b, 0, U32(size));
    if hasSet then WriteAt(b1, 4, set20) else b1
  }

  method Copy(B: array<byte>, off: nat, s: seq<byte>)
    requires off + |s| <= B.Length
    modifies B
    ensures B[..] == WriteAt(old(B[..]), off, s)
  {
    for i := 0 to |s|
      invariant forall x :: 0 <= x < B.Length ==> B[x] == if off <= x < off + i then s[x - off] else old(B[x])
    {
      B[off + i] := s[i];
    }
  }

  lemma {:induction false} TotalSnoc(es: seq<Entry>, e: Entry)
    ensures Total(es + [e]) == Total(es) + (if e.present then Size(e.field) else 0)
  {
    hide Size;
    if es != [] {
      assert (es + [e])[1..] == es[1..] + [e];
      TotalSnoc(es[1..], e);
    } else {
      assert es + [e] == [e] && [e][1..] == [];
    }
  }

  lemma {:induction false} TotalPrefix(es: seq<Entry>, k: nat)
    requires k <= |es|
    ensures Total(es[..k]) <= Total(es)
    decreases |es|
  {
    hide Size;
    if k > 0 {
      assert es[..k][1..] == es[1..][..k - 1];
      TotalPrefix(es[1..], k - 1);
    }
  }

  lemma {:induction false} PackSnoc(b: seq<byte>, off: nat, es: seq<Entry>, e: Entry)
    requires off + Total(es) + (if e.present then Size(e.field) else 0) <= |b|
    ensures Total(es + [e]) == Total(es) + (if e.present then Size(e.field) else 0)
    ensures Pack(b, off, es + [e]) ==
            (if e.present then WriteAt(Pack(b, off, es), off + Total(es), Bytes(e.field)) else Pack(b, off, es))
    decreases |es|
  {
    hide Size, Bytes, WriteAt, Pack;
    TotalSnoc(es, e);
    if es != [] {
      assert (es + [e])[1..] == es[1..] + [e] && (es + [e])[0] == es[0];
      PackUnfold(b, off, es);
      PackUnfold(b, off, es + [e]);
      hide Total;
      TotalUnfold(es);
      if es[0].present {
        PackSnoc(WriteAt(b, off, Bytes(es[0].field)), off + Size(es[0].field), es[1..], e);
      } else {
        PackSnoc(b, off, es[1..], e);
      }
    } else {
      PackLast(b, off, e);
      assert es + [e] == [e];
    }
  }

  lemma {:induction false} TotalUnfold(es: seq<Entry>)
    requires es != []
    ensures Total(es) == (if es[0].present then Size(es[0].field) else 0) + Total(es[1..])
  {
    hide Size;
  }

  lemma {:induction false} PackUnfold(b: seq<byte>, off: nat, es: seq<Entry>)
    requires es != [] && off + Total(es) <= |b|
    ensures Pack(b, off, es) ==
            if es[0].present then Pack(WriteAt(b, off, Bytes(es[0].field)), off + Size(es[0].field), es[1..])
            else Pack(b, off, es[1..])
  {
    hide Size, Bytes, WriteAt;
  }

  lemma {:induction false} PackLast(b: seq<byte>, off: nat, e: Entry)
    requires off + (if e.present then Size(e.field) else 0) <= |b|
    ensures Total([]) == 0 && Pack(b, off, []) == b && off + Total([e]) <= |b|
    ensures Pack(b, off, [e]) == if e.present then WriteAt(b, off, Bytes(e.field)) else b
  {
    hide Size, Bytes, WriteAt;
    var one := [e];
    assert one[1..] == [];
  }

  /**
   * macify_attrlist_fill after its stat call: None is ERANGE. `B` null is the size query.
   * On failure the first `done` entries had already been written.
   */
  method Fill(es: seq<Entry>, hasSet: bool, set20: seq<byte>, B: array?<byte>, bufsize: nat)
    returns (r: Option<nat>, ghost done: nat)
    requires if B == null then bufsize == 0 else B.Length == bufsize >= 4
    requires |set20| == SET_SIZE
    requires hasSet ==> es != [] && es[0] == Entry(true, Reserved)
    modifies B
    ensures r == if B != null && 4 + Total(es) > bufsize then None else Some(4 + Total(es))
    ensures B != null && r.Some? ==> B[..] == Finish(Pack(old(B[..]), 4, es), 4 + Total(es), hasSet, set20)
    ensures B != null && r.None? ==>
              && done <= |es| && 4 + Total(es[..done]) <= bufsize
              && B[..] == Pack(old(B[..]), 4, es[..done])
  {
    hide Size, Bytes, WriteAt, Pack, Total;
    var off := 4;
    done := 0;
    NothingPacked(if B == null then Zeros(4) else B[..]);
    assert es[..0] == [];
    for i := 0 to |es|
      invariant off == 4 + Total(es[..i])
      invariant done == i
      invariant B != null ==> off <= bufsize && B[..] == Pack(old(B[..]), 4, es[..i])
    {
      var e := es[i];
      assert es[..i + 1] == es[..i] + [e];
      TotalSnoc(es[..i], e);
      TotalPrefix(es, i + 1);
      if e.present && B != null && Size(e.field) > bufsize - off {
        return None, i;
      }
      if B != null {
        PackSnoc(old(B[..]), 4, es[..i], e);
        if e.present {
          Copy(B, off, Bytes(e.field));
        }
      }
      off := off + if e.present then Size(e.field) else 0;
      done := i + 1;
    }
    assert es[..|es|] == es;
    if B != null {
      if hasSet { SetFits(es); }
      WriteHeader(B, off, hasSet, set20);
    }
    r := Some(off);
  }

  lemma {:induction false} NothingPacked(b: seq<byte>)
    requires |b| >= 4
    ensures Total([]) == 0 && Pack(b, 4, []) == b
  {
  }

  lemma {:induction false} SetFits(es: seq<Entry>)
    requires es != [] && es[0] == Entry(true, Reserved)
    ensures Total(es) >= SET_SIZE
  {
  }

  method WriteHeader(B: array<byte>, off: nat, hasSet: bool, set20: seq<byte>)
    requires 4 <= off <= B.Length && |set20| == SET_SIZE && (hasSet ==> 4 + SET_SIZE <= off)
    modifies B
    ensures B[..] == Finish(old(B[..]), off, hasSet, set20)
  {
    hide WriteAt;
    Copy(B, 0, U32(off));
    if hasSet { Copy(B, 4, set20); }
  }

  // ---- reading back ----

  /** What a caller knows of an attribute without the data. */
  datatype Kind = SetKind | FixedKind(n: nat) | NameKind
  datatype Slot = Slot(present: bool, kind: Kind)

  function KindOf(f: Field): Kind {
    match f
    case Reserved => SetKind
    case Fixed(data) => FixedKind(|data|)
    case Name(_) => NameKind
  }

  function Slots(es: seq<Entry>): (ks: seq<Slot>)
    ensures |ks| == |es| && forall i :: 0 <= i < |es| ==> ks[i] == Slot(es[i].present, KindOf(es[i].field))
  {
    seq(|es|, i requires 0 <= i < |es| => Slot(es[i].present, KindOf(es[i].field)))
  }

  /** The kind of each supported attribute. */
  function Kinds(): (ks: seq<Kind>)
    ensures |ks| == COUNT
  {
    [SetKind, NameKind, FixedKind(8), FixedKind(8), FixedKind(4), FixedKind(4),
     FixedKind(16), FixedKind(16), FixedKind(16), FixedKind(16), FixedKind(32), FixedKind(4), FixedKind(4),
     FixedKind(4), FixedKind(32), FixedKind(4), FixedKind(4),
     FixedKind(4), FixedKind(8), FixedKind(8), FixedKind(4), FixedKind(8), FixedKind(8)]
  }

  /** The slots a caller expects, from the attribute list alone. */
  function Expected(al: AttrList): (ks: seq<Slot>)
    ensures |ks| == COUNT
  {
    seq(COUNT, i requires 0 <= i < COUNT => Slot(Requested(al)[i], Kinds()[i]))
  }

  function ReadOne(b: seq<byte>, off: nat, k: Kind): Option<Field> {
    match k
    case SetKind => if off + SET_SIZE <= |b| then Some(Reserved) else None
    case FixedKind(n) => if off + n <= |b| then Some(Fixed(b[off..off + n])) else None
    case NameKind =>
      if off + 8 > |b| then None
      else
        var at, n := off + FromLE(b[off..off + 4]), FromLE(b[off + 4..off + 8]);
        if at + n <= |b| then Some(Name(b[at..at + n])) else None
  }

  /** How far a reader moves on: a name is rounded up to whole words. */
  function Extent(f: Field): nat {
    match f
    case Reserved => 20
    case Fixed(data) => |data|
    case Name(text) => 8 + (|text| + 3) / 4 * 4
  }

  lemma {:induction false} ExtentIsSize(f: Field)
    ensures Extent(f) == Size(f)
  {
  }

  function ReadAll(b: seq<byte>, off: nat, ks: seq<Slot>): Option<seq<Field>>
    decreases |ks|
  {
    if ks == [] then Some([])
    else if !ks[0].present then ReadAll(b, off, ks[1..])
    else
      var f := ReadOne(b, off, ks[0].kind);
      if f.None? then None
      else
        var rest := ReadAll(b, off + Extent(f.value), ks[1..]);
        if rest.None? then None else Some([f.value] + rest.value)
  }

  /** The fields that were asked for. */
  function Present(es: seq<Entry>): seq<Field> {
    if es == [] then [] else (if es[0].present then [es[0].field] else []) + Present(es[1..])
  }

  /** The buffer holds each present field's bytes at its place. */
  ghost predicate Holds(b: seq<byte>, off: nat, es: seq<Entry>)
    decreases |es|
  {
    off + Total(es) <= |b| &&
    (es == [] ||
     if !es[0].present then Holds(b, off, es[1..])
     else
       var s := Bytes(es[0].field);
       off + |s| <= |b| && b[off..off + |s|] == s && Holds(b, off + Size(es[0].field), es[1..]))
  }

  /** Packing touches nothing outside the packed range. */
  lemma {:induction false} PackFrame(b: seq<byte>, off: nat, es: seq<Entry>)
    requires off + Total(es) <= |b|
    ensures forall x :: 0 <= x < |b| && (x < off || off + Total(es) <= x) ==> Pack(b, off, es)[x] == b[x]
    decreases |es|
  {
    hide Size, Bytes, WriteAt;
    if es != [] {
      if es[0].present {
        PackFrame(WriteAt(b, off, Bytes(es[0].field)), off + Size(es[0].field), es[1..]);
      } else {
        PackFrame(b, off, es[1..]);
      }
    }
  }

  lemma {:induction false} PackHolds(b: seq<byte>, off: nat, es: seq<Entry>)
    requires off + Total(es) <= |b|
    ensures Holds(Pack(b, off, es), off, es)
    decreases |es|
  {
    hide Size, Bytes, WriteAt;
    if es != [] {
      if es[0].present {
        var s := Bytes(es[0].field);
        var b1 := WriteAt(b, off, s);
        PackHolds(b1, off + Size(es[0].field), es[1..]);
        PackFrame(b1, off + Size(es[0].field), es[1..]);
        var b2 := Pack(b, off, es);
        assert b2[off..off + |s|] == s;
      } else {
        PackHolds(b, off, es[1..]);
      }
    }
  }

  lemma {:induction false} HoldsFrame(b: seq<byte>, b': seq<byte>, off: nat, es: seq<Entry>)
    requires |b| == |b'| && Holds(b, off, es)
    requires forall x :: off <= x < off + Total(es) && x < |b| ==> b'[x] == b[x]
    ensures Holds(b', off, es)
    decreases |es|
  {
    hide Size, Bytes;
    if es != [] {
      if es[0].present {
        var s := Bytes(es[0].field);
        assert b'[off..off + |s|] == b[off..off + |s|];
        HoldsFrame(b, b', off + Size(es[0].field), es[1..]);
      } else {
        HoldsFrame(b, b', off, es[1..]);
      }
    }
  }

  lemma {:induction false} U32Reads(v: nat)
    requires v < 0x1_0000_0000
    ensures FromLE(U32(v)) == v
  {
    hide LE, FromLE;
    assert Pow256(4) == 0x1_0000_0000;
    FromLEofLE(v, 4);
  }

  lemma {:induction false} ReadsOne(b: seq<byte>, off: nat, f: Field)
    requires off + Size(f) <= |b| && off + |Bytes(f)| <= |b| && b[off..off + |Bytes(f)|] == Bytes(f)
    requires f.Name? ==> |f.text| < 0x1_0000_0000
    ensures ReadOne(b, off, KindOf(f)) == Some(f)
  {
    hide U32, FromLE;
    if f.Name? {
      var n := |f.text|;
      U32Reads(8);
      U32Reads(n);
      var s := b[off..off + 8 + n];
      assert b[off..off + 4] == s[..4] == U32(8);
      assert b[off + 4..off + 8] == s[4..8] == U32(n);
      assert b[off + 8..off + 8 + n] == s[8..] == f.text;
    }
  }

  predicate Sizable(es: seq<Entry>) {
    forall i :: 0 <= i < |es| && es[i].field.Name? ==> |es[i].field.text| < 0x1_0000_0000
  }

  /** A buffer that holds the fields reads back as the fields. */
  lemma {:induction false} HoldsReads(b: seq<byte>, off: nat, es: seq<Entry>)
    requires Holds(b, off, es) && Sizable(es)
    ensures ReadAll(b, off, Slots(es)) == Some(Present(es))
    decreases |es|
  {
    hide Size, Bytes, ReadOne, KindOf, Extent;
    if es != [] {
      assert Slots(es)[1..] == Slots(es[1..]);
      if es[0].present {
        ReadsOne(b, off, es[0].field);
        ExtentIsSize(es[0].field);
        HoldsReads(b, off + Size(es[0].field), es[1..]);
      } else {
        HoldsReads(b, off, es[1..]);
        assert Present(es) == Present(es[1..]);
      }
    }
  }

  /** A successful fill: the first word is the size, the fields read back in order, the rest is untouched. */
  lemma {:induction false} FilledBuffer(b: seq<byte>, es: seq<Entry>, hasSet: bool, set20: seq<byte>)
    requires 4 + Total(es) <= |b| && 4 + Total(es) < 0x1_0000_0000 && Sizable(es) && |set20| == SET_SIZE
    requires hasSet ==> es != [] && es[0] == Entry(true, Reserved)
    requires hasSet ==> 4 + SET_SIZE <= |b|
    ensures var b' := Finish(Pack(b, 4, es), 4 + Total(es), hasSet, set20);
            && FromLE(b'[..4]) == 4 + Total(es)
            && ReadAll(b', 4, Slots(es)) == Some(Present(es))
            && (hasSet ==> b'[4..4 + SET_SIZE] == set20)
            && (forall x :: 4 + Total(es) <= x < |b| ==> b'[x] == b[x])
  {
    hide Size, Bytes, WriteAt, ReadAll, Slots, Present, FromLE, U32, Pack, Holds, Total;
    var size := 4 + Total(es);
    var p := Pack(b, 4, es);
    var b' := Finish(p, size, hasSet, set20);
    PackHolds(b, 4, es);
    PackFrame(b, 4, es);
    U32Reads(size);
    assert b'[..4] == U32(size);
    if hasSet {
      SetFits(es);
      assert b'[4..4 + SET_SIZE] == set20;
      AfterSet(p, b', es);
    } else {
      HoldsFrame(p, b', 4, es);
    }
    HoldsReads(b', 4, es);
  }

  lemma {:induction false} AfterSet(b: seq<byte>, b': seq<byte>, es: seq<Entry>)
    requires es != [] && es[0] == Entry(true, Reserved)
    requires |b| == |b'| && Holds(b, 4, es)
    requires forall x :: 4 + SET_SIZE <= x < |b| ==> b'[x] == b[x]
    ensures Holds(b', 4, es)
  {
    HoldsFrame(b, b', 4 + SET_SIZE, es[1..]);
    assert b'[4..4] == [];
  }

  // ---- the table ----

  /** What to expect is fixed by the attribute list, whatever the file. */
  lemma {:induction false} ExpectedSlots(al: AttrList, st: Stat, name: seq<byte>)
    ensures Slots(Table(al, st, name)) == Expected(al)
  {
    hide Values, Kinds, Requested;
    ValueKinds(st, name);
  }

  lemma {:induction false} ValueKinds(st: Stat, name: seq<byte>)
    ensures forall i :: 0 <= i < COUNT ==> KindOf(Values(st, name)[i]) == Kinds()[i]
  {
    hide U32, U64, Time, Zeros, NameText, VType;
  }

  lemma {:induction false} ValueSizes(st: Stat, name: seq<byte>)
    ensures forall i :: 0 <= i < COUNT ==> Size(Values(st, name)[i]) % 4 == 0 && Size(Values(st, name)[i]) <= 300
    ensures forall i :: 0 <= i < COUNT && Values(st, name)[i].Name? ==> |Values(st, name)[i].text| < 0x1_0000_0000
  {
    hide U32, U64, Time, Zeros, NameText, VType;
  }

  lemma {:induction false} TableSizable(al: AttrList, st: Stat, name: seq<byte>)
    ensures Sizable(Table(al, st, name))
  {
    hide Values, Requested;
    ValueSizes(st, name);
  }

  /** Every field starts on a four-byte boundary. */
  lemma {:induction false} Aligned(al: AttrList, st: Stat, name: seq<byte>, k: nat)
    requires k <= COUNT
    ensures (4 + Total(Table(al, st, name)[..k])) % 4 == 0
  {
    hide Values, Requested, Size;
    ValueSizes(st, name);
    TotalAligned(Table(al, st, name), k);
  }

  lemma {:induction false} TotalAligned(es: seq<Entry>, k: nat)
    requires k <= |es| && forall i :: 0 <= i < |es| ==> Size(es[i].field) % 4 == 0
    ensures Total(es[..k]) % 4 == 0
    decreases |es|
  {
    hide Size;
    if k > 0 {
      assert es[..k][1..] == es[1..][..k - 1];
      TotalAligned(es[1..], k - 1);
    }
  }

  /** The copied name ends in a NUL exactly when it was not cut. */
  lemma {:induction false} NameTerminatedIff(name: seq<byte>)
    requires forall i :: 0 <= i < |name| ==> name[i] != 0
    ensures NameText(name)[|NameText(name)| - 1] == 0 <==> |name| <= NAME_LIMIT
  {
    if |name| > NAME_LIMIT {
      assert NameText(name)[NAME_LIMIT] == name[NAME_LIMIT];
    }
  }

  // ---- the returned set ----

  /** The bits collected while packing: one word for all four groups. */
  function Returned(al: AttrList): bv32 {
    (al.commonattr & 0x86005E1F) | (al.volattr & 0x80020000) | (al.dirattr & 0x3) | (al.fileattr & 0x22F)
  }

  /** The words reported for the common, volume, directory and file attributes. */
  datatype Groups = Groups(common: bv32, volume: bv32, directory: bv32, file: bv32)

  function Reported(al: AttrList): Groups {
    var r := Returned(al);
    Groups(r & 0x7FFDFDD0, r & 0x80020000, r & 0x3, r & 0x22F)
  }

  /** attribute_set_t: the four words and a zero for the forks. */
  function ReturnedSet(al: AttrList): (s: seq<byte>)
    ensures |s| == SET_SIZE
  {
    var g := Reported(al);
    U32(g.common as int) + U32(g.volume as int) + U32(g.directory as int) + U32(g.file as int) + U32(0)
  }

  // ---- the whole call ----

  const SLASH: byte := 47

  /** What follows the last slash. */
  function BaseName(path: seq<byte>): (name: seq<byte>)
    ensures |name| <= |path| && path[|path| - |name|..] == name
    ensures 0x2F !in name
    ensures |name| < |path| ==> path[|path| - |name| - 1] == 0x2F
  {
    if path == [] || path[|path| - 1] == SLASH then [] else BaseName(path[..|path| - 1]) + [path[|path| - 1]]
  }

  /** What the call is about; `stat` is None when the stat call fails. */
  datatype Target = Target(havePath: bool, path: Option<seq<byte>>, hidden: bool, invalid: bool, stat: Option<Stat>) {
    function Name(): seq<byte> { if havePath && path.Some? then BaseName(path.value) else [] }
  }

  datatype Outcome = Success | Einval | Enoent | Erange | StatError

  /** Volume attributes were asked for without ATTR_VOL_INFO. */
  predicate BadVolume(al: AttrList) { Has(al.volattr, 0x7FFFFFFF) && !Has(al.volattr, VOL_INFO) }

  /** The size query's answer. */
  function Needed(al: AttrList, t: Target): nat
    requires t.stat.Some?
  {
    4 + Total(Table(al, t.stat.value, t.Name()))
  }

  lemma {:induction false} NeededSmall(al: AttrList, t: Target)
    requires t.stat.Some?
    ensures Needed(al, t) < 0x1_0000_0000
  {
    hide Values, Requested, Size;
    var es := Table(al, t.stat.value, t.Name());
    ValueSizes(t.stat.value, t.Name());
    TotalBound(es, 300);
  }

  lemma {:induction false} TotalBound(es: seq<Entry>, m: nat)
    requires forall i :: 0 <= i < |es| ==> Size(es[i].field) <= m
    ensures Total(es) <= m * |es|
  {
    hide Size;
    if es != [] {
      TotalBound(es[1..], m);
      assert m * |es| == m + m * |es[1..]|;
    }
  }

  /** macify_attrlist_common. */
  method GetAttrList(al: Option<AttrList>, t: Target, B: array?<byte>) returns (rc: Outcome)
    modifies B
    ensures rc ==
            if al.None? || al.value.bitmapcount != 5 then Einval
            else if Has(al.value.volattr, 0x7FFFFFFF) && !Has(al.value.volattr, 0x80000000) then Einval
            else if t.havePath && t.path.Some? && t.hidden then Enoent
            else if B != null && B.Length < 4 then Einval
            else if t.invalid then Enoent
            else if t.stat.None? then StatError
            else if B != null && Needed(al.value, t) > B.Length then Erange
            else Success
    ensures rc == Success && B != null ==>
              && FromLE(B[..4]) == Needed(al.value, t)
              && ReadAll(B[..], 4, Expected(al.value)) == Some(Present(Table(al.value, t.stat.value, t.Name())))
              && (Has(al.value.commonattr, 0x80000000) ==> B.Length >= 24 && B[4..24] == ReturnedSet(al.value))
              && (forall x :: Needed(al.value, t) <= x < B.Length ==> B[x] == old(B[x]))
    ensures rc != Success && rc != Erange && B != null ==> B[..] == old(B[..])
  {
    hide Needed, ReadAll, Present, Table, ReturnedSet, Has;
    if al.None? || al.value.bitmapcount != BIT_MAP_COUNT { return Einval; }
    if BadVolume(al.value) { return Einval; }
    if t.havePath && t.path.Some? && t.hidden { return Enoent; }
    if B != null && B.Length < 4 { return Einval; }
    if t.invalid { return Enoent; }
    if t.stat.None? { return StatError; }
    var fits := FillTable(al.value, t, B);
    rc := if fits then Success else Erange;
  }

  /** The packing itself, once the call is known to be good. */
  method FillTable(al: AttrList, t: Target, B: array?<byte>) returns (fits: bool)
    requires t.stat.Some? && (B != null ==> B.Length >= 4)
    modifies B
    ensures fits == (B == null || Needed(al, t) <= B.Length)
    ensures fits && B != null ==>
              && FromLE(B[..4]) == Needed(al, t)
              && ReadAll(B[..], 4, Expected(al)) == Some(Present(Table(al, t.stat.value, t.Name())))
              && (Has(al.commonattr, 0x80000000) ==> B.Length >= 24 && B[4..24] == ReturnedSet(al))
              && (forall x :: Needed(al, t) <= x < B.Length ==> B[x] == old(B[x]))
  {
    hide Pack, Finish, Total, Table, ReadAll, FromLE, Present, Slots, Has, ReturnedSet;
    var es, hasSet := Table(al, t.stat.value, t.Name()), Has(al.commonattr, 0x80000000);
    SetFirst(al, t.stat.value, t.Name());
    ghost var before := if B == null then [] else B[..];
    ghost var done;
    var r;
    r, done := Fill(es, hasSet, ReturnedSet(al), B, if B == null then 0 else B.Length);
    fits := r.Some?;
    if fits && B != null {
      NeededSmall(al, t);
      TableSizable(al, t.stat.value, t.Name());
      if hasSet { SetFits(es); }
      FilledBuffer(before, es, hasSet, ReturnedSet(al));
      ExpectedSlots(al, t.stat.value, t.Name());
      assert B[..4] == B[..][..4];
      assert hasSet ==> B[4..24] == B[..][4..24];
    }
  }

  lemma {:induction false} SetFirst(al: AttrList, st: Stat, name: seq<byte>)
    ensures Table(al, st, name)[0] == Entry(Has(al.commonattr, RETURNED_ATTRS), Reserved)
  {
    hide Has, U32, U64, Time, Zeros, NameText, VType;
    assert Requested(al)[0] == Has(al.commonattr, RETURNED_ATTRS);
    assert Values(st, name)[0] == Reserved;
  }
}
