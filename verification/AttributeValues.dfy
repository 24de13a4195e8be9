/** What the packed attributes are: which request bit each answers, what a caller decodes, and when the
  * returned set tells the truth. */
module AttributeValues {
  import opened Memory
  import opened Attributes

  // ---- what is asked for ----

  predicate Asked(word: bv32, bit: bv32) { bit < 32 && (word >> bit) & 1 == 1 }

  lemma {:induction false} AskedIff(word: bv32, mask: bv32, bit: bv32)
    requires bit < 32 && mask == 1 << bit
    ensures Has(word, mask) <==> Asked(word, bit)
  {
  }

  /** The returned set, the name, the device and the file system. */
  lemma {:induction false} SetAndNameBits(al: AttrList)
    ensures var r := Requested(al);
            && (r[0] <==> Asked(al.commonattr, 31))
            && (r[1] <==> Asked(al.commonattr, 0))
            && (r[2] <==> Asked(al.commonattr, 1))
            && (r[3] <==> Asked(al.commonattr, 2))
  {
    hide Has, Asked;
    AskedIff(al.commonattr, 0x80000000, 31);
    AskedIff(al.commonattr, 0x1, 0);
    AskedIff(al.commonattr, 0x2, 1);
    AskedIff(al.commonattr, 0x4, 2);
  }

  /** Object type and tag, and the first two times. */
  lemma {:induction false} TypeBits(al: AttrList)
    ensures var r := Requested(al);
            && (r[4] <==> Asked(al.commonattr, 3))
            && (r[5] <==> Asked(al.commonattr, 4))
            && (r[6] <==> Asked(al.commonattr, 9))
            && (r[7] <==> Asked(al.commonattr, 10))
  {
    hide Has, Asked;
    AskedIff(al.commonattr, 0x8, 3);
    AskedIff(al.commonattr, 0x10, 4);
    AskedIff(al.commonattr, 0x200, 9);
    AskedIff(al.commonattr, 0x400, 10);
  }

  /** The other times, Finder information and the identifiers. */
  lemma {:induction false} TimeBits(al: AttrList)
    ensures var r := Requested(al);
            && (r[8] <==> Asked(al.commonattr, 11))
            && (r[9] <==> Asked(al.commonattr, 12))
            && (r[10] <==> Asked(al.commonattr, 14))
            && (r[11] <==> Asked(al.commonattr, 25))
            && (r[12] <==> Asked(al.commonattr, 26))
  {
    hide Has, Asked;
    AskedIff(al.commonattr, 0x800, 11);
    AskedIff(al.commonattr, 0x1000, 12);
    AskedIff(al.commonattr, 0x4000, 14);
    AskedIff(al.commonattr, 0x2000000, 25);
    AskedIff(al.commonattr, 0x4000000, 26);
  }

  /** Volume information and capabilities, and a directory's counts. */
  lemma {:induction false} VolumeAndDirectoryBits(al: AttrList)
    ensures var r := Requested(al);
            && (r[13] <==> Asked(al.volattr, 31))
            && (r[14] <==> Asked(al.volattr, 17))
            && (r[15] <==> Asked(al.dirattr, 0))
            && (r[16] <==> Asked(al.dirattr, 1))
  {
    hide Has, Asked;
    AskedIff(al.volattr, 0x80000000, 31);
    AskedIff(al.volattr, 0x20000, 17);
    AskedIff(al.dirattr, 0x1, 0);
    AskedIff(al.dirattr, 0x2, 1);
  }

  /** A file's links and sizes. */
  lemma {:induction false} FileBits(al: AttrList)
    ensures var r := Requested(al);
            && (r[17] <==> Asked(al.fileattr, 0))
            && (r[18] <==> Asked(al.fileattr, 1))
            && (r[19] <==> Asked(al.fileattr, 2))
  {
    hide Has, Asked;
    AskedIff(al.fileattr, 0x1, 0);
    AskedIff(al.fileattr, 0x2, 1);
    AskedIff(al.fileattr, 0x4, 2);
  }

  /** Its block size, device and data length. */
  lemma {:induction false} MoreFileBits(al: AttrList)
    ensures var r := Requested(al);
            && (r[20] <==> Asked(al.fileattr, 3))
            && (r[21] <==> Asked(al.fileattr, 5))
            && (r[22] <==> Asked(al.fileattr, 9))
  {
    hide Has, Asked;
    AskedIff(al.fileattr, 0x8, 3);
    AskedIff(al.fileattr, 0x20, 5);
    AskedIff(al.fileattr, 0x200, 9);
  }

  /** Each of the 23 entries is there exactly when its own bit of its own group was set. */
  lemma {:induction false} RequestedBits(al: AttrList)
    ensures var r := Requested(al);
            && (r[0] <==> Asked(al.commonattr, 31))
            && (r[1] <==> Asked(al.commonattr, 0))
            && (r[2] <==> Asked(al.commonattr, 1))
            && (r[3] <==> Asked(al.commonattr, 2))
            && (r[4] <==> Asked(al.commonattr, 3))
            && (r[5] <==> Asked(al.commonattr, 4))
            && (r[6] <==> Asked(al.commonattr, 9))
            && (r[7] <==> Asked(al.commonattr, 10))
            && (r[8] <==> Asked(al.commonattr, 11))
            && (r[9] <==> Asked(al.commonattr, 12))
            && (r[10] <==> Asked(al.commonattr, 14))
            && (r[11] <==> Asked(al.commonattr, 25))
            && (r[12] <==> Asked(al.commonattr, 26))
            && (r[13] <==> Asked(al.volattr, 31))
            && (r[14] <==> Asked(al.volattr, 17))
            && (r[15] <==> Asked(al.dirattr, 0))
            && (r[16] <==> Asked(al.dirattr, 1))
            && (r[17] <==> Asked(al.fileattr, 0))
            && (r[18] <==> Asked(al.fileattr, 1))
            && (r[19] <==> Asked(al.fileattr, 2))
            && (r[20] <==> Asked(al.fileattr, 3))
            && (r[21] <==> Asked(al.fileattr, 5))
            && (r[22] <==> Asked(al.fileattr, 9))
  {
    hide Requested, Asked;
    SetAndNameBits(al);
    TypeBits(al);
    TimeBits(al);
    VolumeAndDirectoryBits(al);
    FileBits(al);
    MoreFileBits(al);
  }

  // ---- what is answered ----

  predicate IsTime(f: Field, t: TimeSpec) {
    f.Fixed? && |f.data| == 16 && FromLE(f.data[..8]) == t.sec % 0x1_0000_0000_0000_0000 &&
    FromLE(f.data[8..]) == t.nsec % 0x1_0000_0000_0000_0000
  }

  predicate IsWord(f: Field, v: int) { f.Fixed? && |f.data| == 4 && FromLE(f.data) == v % 0x1_0000_0000 }

  predicate IsLong(f: Field, v: int) { f.Fixed? && |f.data| == 8 && FromLE(f.data) == v % 0x1_0000_0000_0000_0000 }

  lemma {:induction false} WordIs(v: int)
    ensures IsWord(Fixed(U32(v)), v)
  {
    hide LE, FromLE;
    assert Pow256(4) == 0x1_0000_0000;
    FromLEofLE(v % 0x1_0000_0000, 4);
  }

  lemma {:induction false} LongIs(v: int)
    ensures IsLong(Fixed(U64(v)), v)
  {
    hide LE, FromLE;
    assert Pow256(8) == TWO64;
    FromLEofLE(Wrap(v), 8);
  }

  lemma {:induction false} TimeIs(t: TimeSpec)
    ensures IsTime(Fixed(Time(t)), t)
  {
    hide FromLE, U64;
    LongIs(t.sec);
    LongIs(t.nsec);
    assert Time(t)[..8] == U64(t.sec) && Time(t)[8..] == U64(t.nsec);
  }

  /** The vnode type for the file type bits of the mode. */
  lemma {:induction false} VTypeIs(mode: nat)
    ensures var k := mode % 0x10000;
            && (0x8000 <= k < 0x9000 ==> VType(mode) == 1) && (0x4000 <= k < 0x5000 ==> VType(mode) == 2)
            && (0x6000 <= k < 0x7000 ==> VType(mode) == 3) && (0x2000 <= k < 0x3000 ==> VType(mode) == 4)
            && (0xA000 <= k < 0xB000 ==> VType(mode) == 5) && (0xC000 <= k < 0xD000 ==> VType(mode) == 6)
            && (0x1000 <= k < 0x2000 ==> VType(mode) == 7)
            && (k / 0x1000 !in {1, 2, 4, 6, 8, 10, 12} ==> VType(mode) == 0)
  {
    var k := mode % 0x10000;
    DivModUnique(mode, 0x1000, 16 * (mode / 0x10000) + k / 0x1000, k % 0x1000);
    DivModUnique(mode / 0x1000, 16, mode / 0x10000, k / 0x1000);
  }

  /** Name, file system, type and tag. */
  lemma {:induction false} NameAndType(st: Stat, name: seq<byte>)
    ensures var v := Values(st, name);
            && v[0] == Reserved && v[1] == Name(if |name| <= 255 then name + [0] else name[..256])
            && IsLong(v[2], st.dev) && IsLong(v[3], st.dev) && IsWord(v[4], VType(st.mode)) && IsWord(v[5], 16)
  {
    hide U32, U64, Time, VType, IsWord, IsLong, Zeros;
    LongIs(st.dev);
    WordIs(VType(st.mode));
    WordIs(16);
  }

  /** Creation, modification, change and access times; the creation time is the change time. */
  lemma {:induction false} Times(st: Stat, name: seq<byte>)
    ensures var v := Values(st, name);
            IsTime(v[6], st.ctim) && IsTime(v[7], st.mtim) && IsTime(v[8], st.ctim) && IsTime(v[9], st.atim)
  {
    hide U32, U64, Time, VType, IsTime, NameText, Zeros;
    TimeIs(st.ctim);
    TimeIs(st.mtim);
    TimeIs(st.atim);
  }

  /** Finder information and the two identifiers. */
  lemma {:induction false} Identifiers(st: Stat, name: seq<byte>)
    ensures var v := Values(st, name);
            && v[10].Fixed? && |v[10].data| == 32 && (forall i :: 0 <= i < 32 ==> v[10].data[i] == 0)
            && IsWord(v[11], st.ino) && IsWord(v[12], 2)
  {
    hide U32, U64, Time, VType, IsWord, NameText;
    WordIs(st.ino);
    WordIs(2);
    var z := Zeros(32);
    assert forall i :: 0 <= i < 32 ==> z[i] == 0;
  }

  /** Volume, directory and file attributes. */
  lemma {:induction false} SizesAndLinks(st: Stat, name: seq<byte>)
    ensures var v := Values(st, name);
            && IsWord(v[13], 0) && v[14].Fixed? && |v[14].data| == 32
            && IsWord(v[15], if VType(st.mode) == 2 then 2 else 1) && IsWord(v[16], 0) && IsWord(v[17], st.nlink)
            && IsLong(v[18], st.size) && IsLong(v[19], st.blocks * 512) && IsWord(v[20], st.blksize)
            && IsLong(v[21], st.rdev) && IsLong(v[22], st.size)
  {
    hide U32, U64, Time, VType, IsWord, IsLong, NameText;
    WordIs(0);
    WordIs(if VType(st.mode) == 2 then 2 else 1);
    WordIs(st.nlink);
    WordIs(st.blksize);
    LongIs(st.size);
    LongIs(st.blocks * 512);
    LongIs(st.rdev);
  }

  /** The volume's format is case sensitive, and that is valid; nothing else is said of it. */
  lemma {:induction false} Capabilities(st: Stat, name: seq<byte>, i: nat)
    requires i < 8
    ensures var v := Values(st, name)[14];
            v.Fixed? && |v.data| == 32 && IsWord(Fixed(v.data[4 * i..4 * i + 4]), if i == 0 || i == 4 then 0x100 else 0)
  {
    hide U32, U64, Time, VType, IsWord, NameText, FromLE;
    var d := Values(st, name)[14].data;
    assert d == U32(0x100) + Zeros(12) + U32(0x100) + Zeros(12);
    WordIs(0x100);
    ZeroWord(Zeros(4));
    if i == 0 {
      assert d[0..4] == U32(0x100);
    } else if i == 4 {
      assert d[16..20] == U32(0x100);
    } else {
      assert d[4 * i..4 * i + 4] == Zeros(4);
    }
  }

  lemma {:induction false} ZeroWord(s: seq<byte>)
    requires |s| == 4 && forall i :: 0 <= i < 4 ==> s[i] == 0
    ensures IsWord(Fixed(s), 0)
  {
    assert s[1..][1..] == s[2..] && s[2..][1..] == s[3..] && s[3..] == [s[3]];
    assert FromLE(s[3..]) == 0 && FromLE(s[2..]) == 0 && FromLE(s[1..]) == 0;
  }

  // ---- the returned set ----

  /** The words that are reported, by the words that were asked: bits of one group show up in another. */
  lemma {:induction false} ReportedWords(al: AttrList)
    ensures Reported(al).common == al.commonattr & 0x06005C10
    ensures Reported(al).volume == (al.commonattr & 0x80000000) | (al.volattr & 0x80020000)
    ensures Reported(al).directory == (al.commonattr | al.dirattr | al.fileattr) & 0x3
    ensures Reported(al).file == (al.commonattr & 0x20F) | (al.dirattr & 0x3) | (al.fileattr & 0x22F)
  {
  }

  /** What was packed, group by group. */
  function Packed(al: AttrList): Groups {
    Groups(al.commonattr & 0x06005E1F, al.volattr & 0x80020000, al.dirattr & 0x3, al.fileattr & 0x22F)
  }

  /** The set is asked for, and then it reports exactly what was packed only when no name, device, file system,
    * object type or creation time was, volume information was, and the link and entry counts of directories
    * were asked for just as the link count and size of files. */
  lemma {:induction false} ReturnedSetIff(al: AttrList)
    requires al.commonattr & 0x80000000 != 0
    ensures Reported(al) == Packed(al) <==>
              && al.commonattr & 0x20F == 0 && al.volattr & 0x80000000 != 0
              && al.dirattr & 0x3 == al.fileattr & 0x3
  {
  }

  /** Asking for the name and the set: the set does not have the name, and has the volume information, the
    * directory's link count and the file's. */
  lemma {:induction false} NameMisreported(al: AttrList)
    requires al == AttrList(5, 0x80000001, 0, 0, 0)
    ensures Reported(al) == Groups(0, 0x80000000, 0x1, 0x1) && Packed(al) == Groups(0x1, 0, 0, 0)
  {
  }

  /** The bits collected are the bits of what is packed: all groups in one word. */
  lemma {:induction false} ReturnedIs(al: AttrList)
    ensures Returned(al) & 0x7FFFFFFF ==
            (Packed(al).common | Packed(al).volume | Packed(al).directory | Packed(al).file) & 0x7FFFFFFF
  {
  }

  /** The 20 bytes decode to the words. */
  lemma {:induction false} SetDecodes(al: AttrList)
    ensures var s, g := ReturnedSet(al), Reported(al);
            && IsWord(Fixed(s[..4]), g.common as int) && IsWord(Fixed(s[4..8]), g.volume as int)
            && IsWord(Fixed(s[8..12]), g.directory as int) && IsWord(Fixed(s[12..16]), g.file as int)
            && IsWord(Fixed(s[16..]), 0)
  {
    hide U32, IsWord, Reported;
    var s, g := ReturnedSet(al), Reported(al);
    WordIs(g.common as int);
    WordIs(g.volume as int);
    WordIs(g.directory as int);
    WordIs(g.file as int);
    WordIs(0);
    assert s[..4] == U32(g.common as int) && s[4..8] == U32(g.volume as int) && s[8..12] == U32(g.directory as int);
    assert s[12..16] == U32(g.file as int) && s[16..] == U32(0);
  }
}
