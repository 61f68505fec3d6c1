/**
 Creating and removing entries and looking up path names through the entry cache
 (kernel/fs/fat32.c:104-145, 418-435, 562-601, 635-650, 880-938).
 */
module EntryOps {
  import opened Bytes
  import opened DirCodec
  import opened DirModel
  import opened EntryState
  import opened EntryDisk
  import opened EntryCreate
  import opened EntryPath
  import opened EntryCache

  // ---------- Names ----------

  predicate Illegal(c: byte) { c < 0x20 || c in {0x22, 0x2a, 0x2f, 0x3a, 0x3c, 0x3e, 0x3f, 0x5c, 0x7c} }

  /** `formatname`: leading blanks and dots and trailing blanks go; illegal characters refuse the name. */
  method FormatName(name: seq<byte>) returns (r: Option<seq<byte>>)
    ensures r == Formatted(name)
    ensures exists i: nat, j: nat :: NameForm(name, i, j, r)
  {
    var _, _ := FormattedForm(name);
    hide NameForm;
    r := Format(name);
  }

  /** The loops of `formatname`. */
  method Format(name: seq<byte>) returns (r: Option<seq<byte>>)
    ensures r == Formatted(name)
  {
    var i := 0;
    while i < |name| && (name[i] == 0x20 || name[i] == 0x2e)
      invariant i <= |name|
      invariant TrimHead(name) == TrimHead(name[i..])
    {
      assert name[i..][1..] == name[i + 1..];
      i := i + 1;
    }
    assert TrimHead(name) == name[i..];
    var p := i;
    while p < |name|
      invariant i <= p <= |name|
      invariant forall k :: i <= k < p ==> !Illegal(name[k])
    {
      if Illegal(name[p]) {
        assert name[i..][p - i] == name[p];
        return None;
      }
      p := p + 1;
    }
    assert name[i..p] == name[i..];
    assert forall k :: 0 <= k < |name[i..]| ==> !Illegal(name[i..][k]);
    hide TrimHead, Illegal;
    while p > i && name[p - 1] == 0x20
      invariant i <= p <= |name|
      invariant TrimTail(name[i..]) == TrimTail(name[i..p])
    {
      assert name[i..p][..p - i - 1] == name[i..p - 1];
      p := p - 1;
    }
    r := Some(name[i..p]);
  }

  /** The characters that refuse a name: control characters and " * / : < > ? \\ |. */
  predicate Refused(c: byte) { c < 32 || c in {34, 42, 47, 58, 60, 62, 63, 92, 124} }

  /**
   The blanks and dots in front end at `i`, the blanks at the end begin at `j`, and the name is what is between them,
   unless it has a character that refuses it.
   */
  ghost predicate NameForm(name: seq<byte>, i: nat, j: nat, r: Option<seq<byte>>) {
    && i <= j <= |name| && (forall x :: 0 <= x < i ==> name[x] in {32, 46})
    && (i == |name| || name[i] !in {32, 46})
    && if r.None? then exists x :: i <= x < |name| && Refused(name[x])
       else
         && r.value == name[i..j] && (forall x :: i <= x < |name| ==> !Refused(name[x]))
         && (forall x :: j <= x < |name| ==> name[x] == 32) && (j == i || name[j - 1] != 32)
  }

  function TrimHead(s: seq<byte>): seq<byte> {
    if s != [] && (s[0] == 0x20 || s[0] == 0x2e) then TrimHead(s[1..]) else s
  }

  function TrimTail(s: seq<byte>): seq<byte> {
    if s != [] && s[|s| - 1] == 0x20 then TrimTail(s[..|s| - 1]) else s
  }

  function Formatted(name: seq<byte>): Option<seq<byte>> {
    var s := TrimHead(name);
    if exists k :: 0 <= k < |s| && Illegal(s[k]) then None else Some(TrimTail(s))
  }

  lemma {:induction false} TrimHeadFirst(s: seq<byte>)
    ensures TrimHead(s) != [] ==> TrimHead(s)[0] != 0x20 && TrimHead(s)[0] != 0x2e
    ensures exists i :: 0 <= i <= |s| && TrimHead(s) == s[i..]
  {
    if s != [] && (s[0] == 0x20 || s[0] == 0x2e) {
      TrimHeadFirst(s[1..]);
      var i :| 0 <= i <= |s| - 1 && TrimHead(s[1..]) == s[1..][i..];
      assert s[1..][i..] == s[i + 1..];
    } else {
      assert s[0..] == s;
    }
  }

  lemma {:induction false} TrimTailPrefix(s: seq<byte>)
    ensures |TrimTail(s)| <= |s| && TrimTail(s) == s[..|TrimTail(s)|]
    ensures TrimTail(s) != [] ==> TrimTail(s)[|TrimTail(s)| - 1] != 0x20
    ensures s != [] && s[0] != 0x20 ==> TrimTail(s) != []
  {
    if s != [] && s[|s| - 1] == 0x20 {
      TrimTailPrefix(s[..|s| - 1]);
    }
  }

  lemma {:induction false} HeadEnds(s: seq<byte>) returns (i: nat)
    ensures i <= |s| && TrimHead(s) == s[i..] && (forall x :: 0 <= x < i ==> s[x] in {32, 46})
    ensures i == |s| || s[i] !in {32, 46}
  {
    i := 0;
    if s != [] && (s[0] == 0x20 || s[0] == 0x2e) {
      i := HeadEnds(s[1..]);
      assert s[1..][i..] == s[i + 1..] && forall x :: 0 < x <= i ==> s[x] == s[1..][x - 1];
      i := i + 1;
    }
  }

  lemma {:induction false} TailBegins(s: seq<byte>) returns (j: nat)
    ensures j <= |s| && TrimTail(s) == s[..j] && (forall x :: j <= x < |s| ==> s[x] == 32)
    ensures j == 0 || s[j - 1] != 32
  {
    j := |s|;
    if s != [] && s[|s| - 1] == 0x20 {
      j := TailBegins(s[..|s| - 1]);
      assert s[..|s| - 1][..j] == s[..j];
    }
  }

  /** A formatted name is the part between the blanks. */
  lemma FormattedForm(name: seq<byte>) returns (i: nat, j: nat)
    ensures NameForm(name, i, j, Formatted(name))
  {
    i := HeadEnds(name);
    var s := name[i..];
    var e := TailBegins(s);
    j := i + e;
    hide TrimHead, TrimTail;
    assert s[..e] == name[i..j] && forall x :: i <= x < |name| ==> name[x] == s[x - i];
    assert forall c: byte :: Refused(c) <==> Illegal(c);
    if k :| 0 <= k < |s| && Illegal(s[k]) {
      assert Refused(name[i + k]);
    }
  }

  /** A formatted name has only legal characters and neither starts with a dot or blank nor ends with a blank. */
  lemma FormattedOk(name: seq<byte>)
    requires Formatted(name).Some?
    ensures var r := Formatted(name).value;
      && (forall k :: 0 <= k < |r| ==> !Illegal(r[k]))
      && (r != [] ==> r[0] != 0x20 && r[0] != 0x2e && r[|r| - 1] != 0x20 && Searchable(r))
  {
    TrimHeadFirst(name);
    TrimTailPrefix(TrimHead(name));
    var r := Formatted(name).value;
    assert forall k :: 0 <= k < |r| ==> r[k] == TrimHead(name)[k];
  }

  // ---------- Forgetting and changing ----------

  /** `fat32_invalidate`. */
  method Invalidate(c: Cache)
    requires c.Valid()
    modifies c`ent
    ensures c.Valid() && c.St() == Invalidated(old(c.St()), c.dirs)
  {
    ghost var s := c.St();
    InvalidatedInv(s);
    hide DiskInv, Refs, Lru, Parents;
    var k := 0;
    while k < c.n
      invariant k <= c.n && |c.ent| == c.n + 1
      invariant forall j :: 0 <= j < k ==> c.ent[j] == Forgotten(s.ent[j])
      invariant forall j :: k <= j <= c.n ==> c.ent[j] == s.ent[j]
    {
      if c.ent[k].ref == 0 {
        c.ent := c.ent[k := c.ent[k].(valid := 0, dirty := false, parent := 0)];
      }
      k := k + 1;
    }
    assert c.ent == Invalidated(s, c.dirs).ent;
  }

  /** `ewrite` or `etrunc` of an open file, as far as the cache sees it: only the cached fields change. */
  method Modify(c: Cache, x: nat, firstClus: nat, fileSize: nat)
    requires c.Valid() && x < c.n && Live(c.St(), x) && !IsDir(c.ent[x].attr)
    requires firstClus < U32 && fileSize < U32
    modifies c`ent
    ensures c.Valid() && c.St() == Modified(old(c.St()), x, firstClus, fileSize)
  {
    ModifiedInv(c.St(), x, firstClus, fileSize);
    hide DiskInv, Refs, Lru, Parents;
    c.ent := c.ent[x := c.ent[x].(firstClus := firstClus, fileSize := fileSize, dirty := true)];
  }

  // ---------- Removing ----------

  /** The directory that holds entry `x`. */
  ghost function Dir(s: S, x: nat): nat
    requires x < |s.ent| && s.ent[x].parent < |s.ent|
  {
    s.ent[s.ent[x].parent].firstClus
  }

  /** `name` is gone from directory `d`; other names and other directories are as before. */
  ghost predicate Erased(dirs: map<nat, seq<Slot>>, dirs': map<nat, seq<Slot>>, d: nat, name: seq<byte>) {
    && d in dirs && d in dirs' && dirs' == dirs[d := dirs'[d]] && Searchable(name)
    && Rewrites(dirs[d], dirs'[d], name) && Scan(dirs'[d], 0, name).Miss?
  }

  lemma RemoveStep(s: S, x: nat)
    requires Inv(s) && x < s.n && Live(s, x) && s.ent[x].valid == 1
    requires IsDir(s.ent[x].attr) ==> s.ent[x].firstClus in s.dirs && IsDirEmpty(s.dirs[s.ent[x].firstClus])
    ensures s.ent[x].parent <= s.n && Dir(s, x) in s.dirs && s.ent[x].name != []
    ensures var slots, k := s.dirs[Dir(s, x)], s.ent[x].off;
      && k < |slots|
      && var cnt := LongCnt(slots[k][0] as nat);
         && k + cnt < |slots|
         && var t := EntryDisk.Removed(s, x, Erase(slots, k, cnt + 1));
            Inv(t) && Erased(s.dirs, t.dirs, Dir(s, x), s.ent[x].name)
  {
    hide Scan, Refs, Lru, Parents, DirOk, Dotted, Rewrites, Erase, LongCnt, IsDirEmpty;
    DirThere2(s, x);
    assert OnDisk(s.ent, s.dirs, x);
    var slots, k := s.dirs[Dir(s, x)], s.ent[x].off;
    EraseRewrites(slots, s.ent[x].name);
    var slots' := Erase(slots, k, LongCnt(slots[k][0] as nat) + 1);
    if IsDir(s.ent[x].attr) {
      DirThere(s, x);
      EmptyDir(s.dirs[s.ent[x].firstClus]);
    }
    hide Tree, Cached, DirIds, NoNames;
    RemovedInv(s, x, slots');
  }

  /** `eremove`, called for a file or for a directory that `isdirempty` accepts. */
  method ERemove(c: Cache, x: nat)
    requires c.Valid() && x < c.n && Live(c.St(), x)
    requires c.ent[x].valid == 1 && IsDir(c.ent[x].attr) ==>
      c.ent[x].firstClus in c.dirs && IsDirEmpty(c.dirs[c.ent[x].firstClus])
    modifies c`ent, c`dirs
    ensures c.Valid()
    ensures old(c.ent[x]).valid != 1 ==> c.ent == old(c.ent) && c.dirs == old(c.dirs)
    ensures old(c.ent[x]).valid == 1 ==>
      && c.ent == old(c.ent)[x := old(c.ent[x]).(valid := -1)]
      && old(c.ent[x]).parent <= c.n && Erased(old(c.dirs), c.dirs, Dir(old(c.St()), x), old(c.ent[x]).name)
  {
    hide Scan, Refs, Lru, Parents, DiskInv, Erase, Erased, LongCnt;
    var e := c.ent[x];
    if e.valid != 1 {
      return;
    }
    RemoveStep(c.St(), x);
    var d := c.ent[e.parent].firstClus;
    var slots := c.dirs[d];
    var entcnt := LongCnt(slots[e.off][0] as nat);
    c.dirs := c.dirs[d := Erase(slots, e.off, entcnt + 1)];
    c.ent := c.ent[x := e.(valid := -1)];
  }

  // ---------- Creating ----------

  /** The attribute `ealloc` gives to a new entry. */
  function AllocAttr(attr: byte): byte {
    if attr == ATTR_DIRECTORY || attr == ATTR_DEVICE || attr as int / 0x20 % 2 == 1 then attr else attr + 0x20
  }

  /** What `ealloc` records for a new entry; `f` is the cluster allocated for a directory. */
  function AllocInfo(attr: byte, f: nat): Info {
    Info(AllocAttr(attr), if attr == ATTR_DIRECTORY then f else 0, 0)
  }

  /** A new directory has attribute 16 and its cluster, a device 64, and any other file the bit 32 and no cluster. */
  lemma AllocBits(attr: byte, f: nat)
    ensures AllocInfo(16, f) == Info(16, f, 0) && AllocInfo(64, f) == Info(64, 0, 0)
    ensures attr != 16 && attr != 64 ==>
      var a, b := attr as int, AllocInfo(attr, f).attr as int;
      b % 32 == a % 32 && b / 64 == a / 64 && b / 32 % 2 == 1 && AllocInfo(attr, f) == Info(b as byte, 0, 0)
  {
  }

  /** The disk after `ealloc` wrote the entry at slot `off` of directory `d`, and "." and ".." if it is a directory. */
  function MadeDirs(dirs: map<nat, seq<Slot>>, d: nat, off: nat, nm: seq<byte>, short: seq<byte>, attr: byte, f: nat,
                    size: nat, pad: nat): map<nat, seq<Slot>>
    requires d in dirs && d < U32 && off <= |dirs[d]| && NameOk(nm) && ShortOk(short) && AllocInfo(attr, f).Valid()
      && f < U32 && size >= 2
  {
    var dirs' := dirs[d := Make(dirs[d], off, Encode(nm, short, AllocInfo(attr, f))) + Blank(pad)];
    if attr == ATTR_DIRECTORY then dirs'[f := FreshDir(f, d, size)] else dirs'
  }

  /** The new name is in the directory, everything else on the disk is as before; a new directory is empty. */
  ghost predicate NameMade(dirs: map<nat, seq<Slot>>, dirs': map<nat, seq<Slot>>, d: nat, nm: seq<byte>, off: nat,
                           info: Info) {
    && d in dirs' && Created(dirs, dirs', d, dirs'[d], nm) && Scan(dirs'[d], 0, nm) == Hit(off, info)
    && (IsDir(info.attr) ==>
        && info.firstClus in dirs' && IsDirEmpty(dirs'[info.firstClus])
        && DotsIn(dirs'[info.firstClus], info.firstClus, d))
  }

  lemma MadeName(dirs: map<nat, seq<Slot>>, d: nat, nm: seq<byte>, short: seq<byte>, attr: byte, f: nat, size: nat,
                 pad: nat)
    requires d in dirs && d < U32 && DirOk(dirs[d]) && NameOk(nm) && Searchable(nm) && ShortOk(short)
    requires f < U32 && (attr == ATTR_DIRECTORY ==> f !in dirs) && size >= 2 && (attr == ATTR_DIRECTORY || !IsDir(attr))
    requires Scan(dirs[d], 0, nm).Miss?
    ensures AllocInfo(attr, f).Valid() && Scan(dirs[d], 0, nm).off <= |dirs[d]|
    ensures var off := Scan(dirs[d], 0, nm).off;
      NameMade(dirs, MadeDirs(dirs, d, off, nm, short, attr, f, size, pad), d, nm, off, AllocInfo(attr, f))
  {
    hide Scan, DirOk, Dotted, Rewrites, Make, Encode, FreshDir, IsDirEmpty;
    var off, info := Scan(dirs[d], 0, nm).off, AllocInfo(attr, f);
    assert IsDir(info.attr) <==> attr == ATTR_DIRECTORY;
    assert Long(nm, short, info).Valid();
    MakeRewrites(dirs[d], nm, short, info, pad);
    FreshDirOk(f, d, size);
    FreshDots(f, d, size);
    hide DotsIn;
  }

  /** A fresh slot `v` becomes the entry just made on disk. */
  lemma MadeInv(s: S, m: S, v: nat, dp: nat, nm: seq<byte>, off: nat, info: Info, dirs': map<nat, seq<Slot>>, e: Entry)
    requires Inv(s) && Inv(m) && TakeStep(s, m, v) && Live(s, dp) && s.ent[dp].valid == 1 && IsDir(s.ent[dp].attr)
    requires NameMade(s.dirs, dirs', s.ent[dp].firstClus, nm, off, info)
    requires info.Valid() && !e.dirty && e.name == nm && e.off == off && Info(e.attr, e.firstClus, e.fileSize) == info
    ensures v < s.n && v != dp && dp <= s.n && m.n == s.n
    ensures var t := Filled(m.(dirs := dirs'), v, dp, e); Inv(t) && Gained(s, t, v, PathOf(s, dp) + [nm])
  {
    hide Scan, Refs, Lru, Parents, DiskInv, IsDirEmpty, DirOk, Dotted, Rewrites, Refer;
    TakenSame(s, m, v, dp);
    var d := s.ent[dp].firstClus;
    var s', m' := s.(dirs := dirs'), m.(dirs := dirs');
    CreatedInv(s, dp, dirs'[d], nm, dirs');
    CreatedInv(m, dp, dirs'[d], nm, dirs');
    assert forall c :: 0 <= c < s.n ==> !Match(s.ent[c], dp, nm);
    hide Created, PathOf;
    TakeElsewhere(s, m, v, dirs');
    FilledInv(s', m', v, dp, e);
    var t := Filled(m', v, dp, e);
    GainElsewhere(s, s', t, v, dp, nm);
  }

  lemma TakeElsewhere(s: S, m: S, v: nat, dirs': map<nat, seq<Slot>>)
    requires TakeStep(s, m, v)
    ensures TakeStep(s.(dirs := dirs'), m.(dirs := dirs'), v)
  {
    var s', m' := s.(dirs := dirs'), m.(dirs := dirs');
    forall c | Live(s', c)
      ensures Live(m', c) && SameNames(s', m', c)
    {
      assert Live(s, c);
    }
  }

  /** References do not depend on the disk, or on slots that nobody uses. */
  lemma GainElsewhere(s: S, m: S, t: S, c: nat, dp: nat, nm: seq<byte>)
    requires Core(s) && Live(s, dp) && dp <= m.n && Shape(m)
    requires (m.n == s.n && m.ent == s.ent && m.rank == s.rank) || LiveKept(s, m)
    requires m.holders == s.holders && Gained(m, t, c, PathOf(m, dp) + [nm])
    ensures Gained(s, t, c, PathOf(s, dp) + [nm])
  {
    hide Refs, Lru, Parents;
    if m.ent == s.ent && m.n == s.n && m.rank == s.rank {
      forall b | Live(s, b)
        ensures Live(m, b) && SameNames(s, m, b)
      {
      }
    }
    PathKept(s, m, dp);
    hide PathOf;
    LiveKeptTrans(s, m, t);
  }

  /** The assignments to the new entry in `ealloc`. */
  method FillEntry(c: Cache, ep: nat, dp: nat, nm: seq<byte>, info: Info, off: nat)
    requires Shape(c.St()) && ep < c.n && dp <= c.n && ep != dp && c.ent[ep].ref == 1
    modifies c`ent, c`rank
    ensures c.St() == Filled(old(c.St()), ep, dp,
      old(c.ent[ep]).(name := nm, attr := info.attr, firstClus := info.firstClus, fileSize := info.fileSize,
                      off := off))
  {
    c.ent :=
      c.ent[ep := c.ent[ep].(name := nm, attr := info.attr, firstClus := info.firstClus, fileSize := info.fileSize)];
    c.ent := c.ent[dp := c.ent[dp].(ref := c.ent[dp].ref + 1)];
    c.ent := c.ent[ep := c.ent[ep].(parent := dp, off := off)];
    c.ent := c.ent[ep := c.ent[ep].(valid := 1)];
    c.rank := c.rank[ep := c.rank[dp] + 1];
  }

  /** `ealloc` after the lookup found no entry: take a slot, write the entry to disk, fill the slot. */
  method Create(c: Cache, ghost s: S, dp: nat, nm: seq<byte>, off: nat, attr: byte, f: nat, size: nat,
                short: seq<byte>, pad: nat) returns (r: Outcome)
    requires Inv(s) && c.Valid() && Live(s, dp) && s.ent[dp].valid == 1 && Looked(s, c.St(), dp, nm, NoEntry(off))
    requires NameOk(nm) && off >= 2 && s.ent[dp].firstClus < U32
    requires attr == ATTR_DIRECTORY || !IsDir(attr)
    requires f < U32 && (attr == ATTR_DIRECTORY ==> f !in s.dirs) && size >= 2 && ShortOk(short)
    modifies c
    ensures c.Valid() && r.Got?
    ensures
      && Gained(s, c.St(), r.entry, PathOf(s, dp) + [nm]) && r.entry < c.n && Match(c.ent[r.entry], dp, nm)
      && NameMade(s.dirs, c.dirs, s.ent[dp].firstClus, nm, off, AllocInfo(attr, f)) && c.ent[r.entry].off == off
  {
    hide Scan, Refs, Lru, Parents, DiskInv, PathOf, NameMade, MadeDirs, AllocInfo, TakeStep, Gained;
    ghost var m := c.St();
    assert Live(s, dp);
    var got := c.EGet(dp, nm);
    assert got.Some?;
    var ep := got.value;
    ghost var m1 := c.St();
    TakenSame(m, m1, ep, dp);
    DirThere(m1, dp);
    hide LiveKept, DirOk, Dotted;
    var d, info := c.ent[dp].firstClus, AllocInfo(attr, f);
    MadeName(c.dirs, d, nm, short, attr, f, size, pad);
    ghost var e :=
        c.ent[ep].(name := nm, attr := info.attr, firstClus := info.firstClus, fileSize := info.fileSize, off := off);
    ghost var dirs' := MadeDirs(c.dirs, d, off, nm, short, attr, f, size, pad);
    MadeInv(m, m1, ep, dp, nm, off, info, dirs', e);
    hide Inv;
    c.dirs := MadeDirs(c.dirs, d, off, nm, short, attr, f, size, pad);
    FillEntry(c, ep, dp, nm, info, off);
    assert c.St() == Filled(m1.(dirs := dirs'), ep, dp, e);
    GainElsewhere(s, m, c.St(), ep, dp, nm);
    r := Got(ep);
  }

  /**
   `ealloc`.  The cluster `f` for a new directory, its slot count `size`, the short name and the zeroed
   slots `pad` by which the parent directory grew come from other parts of the file system.
   */
  method EAlloc(c: Cache, dp: nat, name: seq<byte>, attr: byte, f: nat, size: nat, short: seq<byte>, pad: nat)
      returns (r: Outcome)
    requires c.Valid() && Live(c.St(), dp) && c.ent[dp].firstClus < U32
    requires Formatted(name).Some? ==> NameOk(Formatted(name).value)
    requires attr == ATTR_DIRECTORY || !IsDir(attr)
    requires f < U32 && (attr == ATTR_DIRECTORY ==> f !in c.dirs) && size >= 2 && ShortOk(short)
    requires dp == c.n && Formatted(name).Some? && c.ent[dp].firstClus in c.dirs ==>
      var found := Scan(c.dirs[c.ent[dp].firstClus], 0, Formatted(name).value);
      found.Miss? ==> found.off >= 2
    modifies c
    ensures c.Valid()
    ensures r.Panic? ==>
      c.St() == old(c.St()) && (!IsDir(c.ent[dp].attr) || forall x :: 0 <= x < c.n ==> c.ent[x].ref > 0)
    ensures r.NoEntry? ==>
      c.St() == old(c.St()) && IsDir(c.ent[dp].attr) && (c.ent[dp].valid != 1 || Formatted(name).None?)
    ensures r.Got? ==>
      && Formatted(name).Some? && old(c.ent[dp]).valid == 1
      && var nm, s, d := Formatted(name).value, old(c.St()), old(c.ent[dp]).firstClus;
         && Gained(s, c.St(), r.entry, PathOf(s, dp) + [nm]) && r.entry < c.n && Match(c.ent[r.entry], dp, nm)
         && d in s.dirs
         && if Scan(s.dirs[d], 0, nm).Hit? then c.dirs == s.dirs
            else NameMade(s.dirs, c.dirs, d, nm, c.ent[r.entry].off, AllocInfo(attr, f)) && c.ent[r.entry].off >= 2
  {
    hide Scan, Refs, Lru, Parents, DiskInv, PathOf, NameMade;
    ghost var s := c.St();
    if !IsDir(c.ent[dp].attr) {
      return Panic;
    }
    var nm := FormatName(name);
    if c.ent[dp].valid != 1 || nm.None? {
      return NoEntry(0);
    }
    FormattedOk(name);
    DirThere(s, dp);
    hide Formatted;
    var found := c.DirLookup(dp, nm.value);
    if !found.NoEntry? {
      r := found;
      if r.Got? {
        HitIsScan(c.St(), r.entry, dp, nm.value);
        assert Live(s, dp);
      }
      return;
    }
    if dp < c.n {
      ScanPastDots(s.dirs[s.ent[dp].firstClus], nm.value);
    }
    r := Create(c, s, dp, nm.value, found.off, attr, f, size, short, pad);
  }
}
