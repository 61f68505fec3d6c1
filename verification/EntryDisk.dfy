/**
 What cached entries say about the disk: the invariant that makes a cache hit as good as a fresh
 directory scan, and its preservation by every step of the entry cache (kernel/fs/fat32.c:385-716).
 A directory is identified by its first cluster; its contents are the slots of its chain.
 */
module EntryDisk {
  import opened Bytes
  import opened DirCodec
  import opened DirModel
  import opened EntryState

  /** In directory `d`, name `n` stands for the directory with first cluster `f`. */
  ghost predicate Refer(dirs: map<nat, seq<Slot>>, d: nat, n: seq<byte>, f: nat) {
    && d in dirs && Searchable(n) && Scan(dirs[d], 0, n).Hit?
    && IsDir(Scan(dirs[d], 0, n).info.attr) && Scan(dirs[d], 0, n).info.firstClus == f
  }

  /** A directory made by `ealloc` starts with "." and ".."; the root need not. */
  ghost predicate Dotted(slots: seq<Slot>) {
    |slots| >= 2 && Dot(slots[0]).Valid() && Dot(slots[1]).Valid()
  }

  /** `slots'` is a directory that differs from `slots` in what it says about `name` only. */
  ghost predicate Rewrites(slots: seq<Slot>, slots': seq<Slot>, name: seq<byte>) {
    DirOk(slots') && OthersSame(slots, slots', name) && (Dotted(slots) ==> Dotted(slots'))
  }

  lemma {:induction false} ScanOff(slots: seq<Slot>, k: nat, name: seq<byte>)
    requires name != []
    ensures !Scan(slots, k, name).Broken? ==> Scan(slots, k, name).off >= k
    decreases |slots| - k
  {
    if k <= |slots| {
      match Parse(slots, k)
      case Empty(count) => if count != 0 { ScanOff(slots, k + count, name); }
      case Found(count, n, info) => if n != name && count != 0 { ScanOff(slots, k + count, name); }
      case _ =>
    }
  }

  /** A scan starts behind "." and "..". */
  lemma ScanPastDots(slots: seq<Slot>, name: seq<byte>)
    requires Dotted(slots) && Searchable(name)
    ensures Scan(slots, 0, name) == Scan(slots, 2, name)
    ensures !Scan(slots, 0, name).Broken? ==> Scan(slots, 0, name).off >= 2
  {
    hide Scan, Item.Valid;
    ScanItem(slots, 0, Dot(slots[0]), name);
    ScanItem(slots, 1, Dot(slots[1]), name);
    ScanOff(slots, 2, name);
  }

  lemma MakeRewrites(slots: seq<Slot>, name: seq<byte>, short: seq<byte>, info: Info, pad: nat)
    requires DirOk(slots) && Long(name, short, info).Valid() && Scan(slots, 0, name).Miss?
    ensures var k := Scan(slots, 0, name).off;
      && k <= |slots|
      && var slots' := Make(slots, k, Encode(name, short, info)) + Blank(pad);
         Rewrites(slots, slots', name) && Scan(slots', 0, name) == Hit(k, info)
  {
    hide Scan, DirOk, Item.Valid, OthersSame;
    assert Searchable(name) by { assert Long(name, short, info).Valid(); NotDot(name, short, info); }
    MakeTheorem(slots, name, short, info, pad);
    if Dotted(slots) {
      ScanPastDots(slots, name);
    }
  }

  lemma NotDot(name: seq<byte>, short: seq<byte>, info: Info)
    requires Long(name, short, info).Valid()
    ensures Searchable(name)
  {
  }

  lemma EraseRewrites(slots: seq<Slot>, name: seq<byte>)
    requires DirOk(slots) && Searchable(name) && Scan(slots, 0, name).Hit?
    ensures var k := Scan(slots, 0, name).off;
      && k < |slots| && LongCnt(slots[k][0] as nat) == EntCnt(|name|) && k + EntCnt(|name|) < |slots|
      && var slots' := Erase(slots, k, EntCnt(|name|) + 1);
         Rewrites(slots, slots', name) && Scan(slots', 0, name).Miss?
  {
    hide Scan, DirOk, Item.Valid, OthersSame;
    RemoveTheorem(slots, name);
    if Dotted(slots) {
      ScanPastDots(slots, name);
    }
  }

  lemma PatchRewrites(slots: seq<Slot>, name: seq<byte>, firstClus: nat, fileSize: nat)
    requires DirOk(slots) && Searchable(name) && Scan(slots, 0, name).Hit? && firstClus < U32 && fileSize < U32
    ensures var Hit(k, info) := Scan(slots, 0, name);
      && k < |slots| && LongCnt(slots[k][0] as nat) == EntCnt(|name|) && k + EntCnt(|name|) < |slots|
      && var p := k + EntCnt(|name|);
         var slots' := slots[p := Patch(slots[p], firstClus, fileSize)];
         Rewrites(slots, slots', name) && Scan(slots', 0, name) == Hit(k, Info(info.attr, firstClus, fileSize))
  {
    hide Scan, DirOk, Item.Valid, OthersSame, Patch;
    UpdateTheorem(slots, name, firstClus, fileSize);
    if Dotted(slots) {
      ScanPastDots(slots, name);
    }
  }

  /** `isdirempty` (kernel/syscall/sysfile.c:447-455): nothing but erased slots behind "." and "..". */
  predicate IsDirEmpty(slots: seq<Slot>) { Parse(slots, 2).End? }

  lemma IsDirEmptyExact(slots: seq<Slot>, items: seq<Item>)
    requires Holds(slots, 0, items) && |items| >= 2 && items[0].Dot? && items[1].Dot?
    ensures IsDirEmpty(slots) <==> AllErased(items[2..])
  {
    assert Parse(slots, 2) == ParseFrom(slots, 2, INIT.(cnt := 0));
    hide Parse, ItemAt, ParseFrom;
    var rest := items[2..];
    assert items[1..][1..] == rest;
    assert Holds(slots, 2, rest);
    if rest == [] || rest[0].Erased? {
      ParseRun(slots, 2, rest, 0);
    } else if rest[0].Long? {
      ParseItem(slots, 2, rest[0]);
    } else {
      ParseDot(slots, 2, rest[0]);
    }
  }

  /** No name is found in a directory that `isdirempty` accepts. */
  lemma EmptyDir(slots: seq<Slot>)
    requires Dotted(slots) && IsDirEmpty(slots)
    ensures NoNames(slots)
  {
    forall n | Searchable(n)
      ensures !Scan(slots, 0, n).Hit?
    {
      ScanPastDots(slots, n);
    }
  }

  /** The directories on disk form a tree below `root`: every subdirectory exists and has one name. */
  ghost predicate Tree(dirs: map<nat, seq<Slot>>, root: nat) {
    && root in dirs
    && (forall d {:trigger dirs[d]} :: d in dirs ==> DirOk(dirs[d]) && (d != root ==> Dotted(dirs[d])))
    && (forall d, n, f {:trigger Refer(dirs, d, n, f)} :: Refer(dirs, d, n, f) ==> f in dirs && f != root)
    && (forall d, n, d', n', f {:trigger Refer(dirs, d, n, f), Refer(dirs, d', n', f)} ::
          Refer(dirs, d, n, f) && Refer(dirs, d', n', f) ==> d == d' && n == n')
  }

  /** A fresh scan of the parent directory finds entry `c` as it is cached, up to an update not yet written. */
  ghost predicate OnDisk(ent: seq<Entry>, dirs: map<nat, seq<Slot>>, c: nat)
    requires c < |ent|
  {
    var e := ent[c];
    && Searchable(e.name) && e.firstClus < U32 && e.fileSize < U32
    && e.parent < |ent| && IsDir(ent[e.parent].attr) && ent[e.parent].firstClus in dirs
    && var r := Scan(dirs[ent[e.parent].firstClus], 0, e.name);
       && r.Hit? && r.off == e.off && r.info.attr == e.attr
       && (!e.dirty ==> r.info == Info(e.attr, e.firstClus, e.fileSize))
  }

  ghost predicate Cached(s: S)
    requires Shape(s)
  {
    && (forall c {:trigger OnDisk(s.ent, s.dirs, c)} ::
        0 <= c < s.n && s.ent[c].valid == 1 ==> OnDisk(s.ent, s.dirs, c))
    && (forall c {:trigger Clean(s.ent[c])} :: 0 <= c < s.n ==> Clean(s.ent[c]))
    && (forall c, c' {:trigger Apart(s.ent[c], s.ent[c'])} :: 0 <= c < c' < s.n ==> Apart(s.ent[c], s.ent[c']))
  }

  /** Only a referenced file can have an update that is not yet written. */
  predicate Clean(e: Entry) { e.valid == 1 && (e.ref <= 0 || IsDir(e.attr)) ==> !e.dirty }

  /** Two cached entries never stand for the same name in the same directory. */
  predicate Apart(e: Entry, e': Entry) { e.valid == 1 && e'.valid == 1 ==> e.parent != e'.parent || e.name != e'.name }

  predicate HasDir(e: Entry) { Attached(e) && IsDir(e.attr) }

  /** Cached directories exist on disk under different first clusters; a removed one is named by no directory. */
  ghost predicate DirIds(s: S)
    requires Shape(s)
  {
    && IsDir(s.ent[s.n].attr)
    && (forall c {:trigger HasDir(s.ent[c])} :: 0 <= c <= s.n && HasDir(s.ent[c]) ==> s.ent[c].firstClus in s.dirs)
    && (forall c, c' {:trigger HasDir(s.ent[c]), HasDir(s.ent[c'])} ::
        0 <= c < c' <= s.n && HasDir(s.ent[c]) && HasDir(s.ent[c']) ==>
          s.ent[c].firstClus != s.ent[c'].firstClus)
    && (forall c, d, n {:trigger Refer(s.dirs, d, n, s.ent[c].firstClus)} ::
          0 <= c < s.n && s.ent[c].valid == -1 && HasDir(s.ent[c]) ==> !Refer(s.dirs, d, n, s.ent[c].firstClus))
  }

  ghost predicate DiskInv(s: S) {
    Shape(s) && Tree(s.dirs, s.ent[s.n].firstClus) && Cached(s) && DirIds(s)
  }

  ghost predicate Inv(s: S) {
    Core(s) && DiskInv(s)
  }

  /** A cache hit is what a fresh scan of the directory would return. */
  lemma HitIsScan(s: S, c: nat, dp: nat, name: seq<byte>)
    requires Inv(s) && c < s.n && s.ent[c].valid == 1 && s.ent[c].parent == dp && s.ent[c].name == name
    ensures dp <= s.n && s.ent[dp].firstClus in s.dirs && name != []
    ensures var r := Scan(s.dirs[s.ent[dp].firstClus], 0, name);
      && r.Hit? && r.off == s.ent[c].off && r.info.attr == s.ent[c].attr
      && (!s.ent[c].dirty ==> r.info == Info(s.ent[c].attr, s.ent[c].firstClus, s.ent[c].fileSize))
  {
    assert OnDisk(s.ent, s.dirs, c);
  }

  // ---------- Steps that leave the disk alone ----------

  /** `t` differs from `e` at most in its reference count, which does not fall to zero. */
  predicate SameEntry(e: Entry, t: Entry) {
    t.(ref := e.ref) == e && (e.ref > 0 <==> t.ref > 0)
  }

  /** From `s` to `t` only counts change, and slots that are nobody's parent may go out of use. */
  ghost predicate Stutter(s: S, t: S) {
    && Shape(s) && Parents(s) && Shape(t) && t.n == s.n && t.dirs == s.dirs
    && t.ent[t.n].(ref := s.ent[s.n].ref) == s.ent[s.n]
    && forall c {:trigger t.ent[c]} :: 0 <= c < s.n ==>
         SameEntry(s.ent[c], t.ent[c]) || (t.ent[c].valid == 0 && Childless(s, c))
         || (s.ent[c].valid == 1 && s.ent[c].ref == 0 && t.ent[c] == s.ent[c].(ref := 1))
  }

  lemma DiskStutter(s: S, t: S)
    requires DiskInv(s) && Stutter(s, t)
    ensures DiskInv(t)
  {
    hide Scan, Refer, Shape, Parents;
    CachedStutter(s, t);
    DirIdsStutter(s, t);
  }

  lemma StutterParent(s: S, t: S, c: nat)
    requires Stutter(s, t) && c < s.n && s.ent[c].valid == 1 && t.ent[c].valid == 1
    ensures t.ent[c].parent == s.ent[c].parent <= s.n
    ensures t.ent[t.ent[c].parent].attr == s.ent[s.ent[c].parent].attr
    ensures t.ent[t.ent[c].parent].firstClus == s.ent[s.ent[c].parent].firstClus
  {
    var p := s.ent[c].parent;
    if p < s.n {
      assert t.ent[p] == t.ent[p];
    }
  }

  lemma CachedStutter(s: S, t: S)
    requires Shape(s) && Cached(s) && Stutter(s, t)
    ensures Cached(t)
  {
    hide Scan, Parents;
    forall c | 0 <= c < t.n && t.ent[c].valid == 1
      ensures OnDisk(t.ent, t.dirs, c)
    {
      assert OnDisk(s.ent, s.dirs, c);
      StutterParent(s, t, c);
    }
    forall c | 0 <= c < t.n
      ensures Clean(t.ent[c])
    {
      assert Clean(s.ent[c]);
    }
    forall c, c' | 0 <= c < c' < t.n
      ensures Apart(t.ent[c], t.ent[c'])
    {
      assert Apart(s.ent[c], s.ent[c']);
    }
  }

  lemma DirIdsStutter(s: S, t: S)
    requires Shape(s) && DirIds(s) && Stutter(s, t)
    ensures DirIds(t)
  {
    hide Refer, Parents;
    forall c | 0 <= c <= t.n && HasDir(t.ent[c])
      ensures HasDir(s.ent[c]) && s.ent[c].firstClus == t.ent[c].firstClus && s.ent[c].valid == t.ent[c].valid
    {
    }
    forall c, d, n | 0 <= c < t.n && t.ent[c].valid == -1 && HasDir(t.ent[c])
      ensures !Refer(t.dirs, d, n, t.ent[c].firstClus)
    {
      assert HasDir(s.ent[c]);
    }
  }

  // ---------- Filling a slot from a scan ----------

  /** The slot taken for a lookup becomes a faithful copy of what the scan found. */
  lemma FilledDisk(s: S, v: nat, dp: nat, e: Entry)
    requires Core(s) && DiskInv(s) && Childless(s, v) && v < s.n && dp <= s.n && v != dp
    requires s.ent[v].valid == 0 && s.ent[dp].valid == 1 && IsDir(s.ent[dp].attr)
    requires !e.dirty && Searchable(e.name) && e.firstClus < U32 && e.fileSize < U32
    requires s.ent[dp].firstClus in s.dirs
    requires Scan(s.dirs[s.ent[dp].firstClus], 0, e.name) == Hit(e.off, Info(e.attr, e.firstClus, e.fileSize))
    requires forall c :: 0 <= c < s.n && s.ent[c].valid == 1 ==> s.ent[c].parent != dp || s.ent[c].name != e.name
    ensures DiskInv(Filled(s, v, dp, e))
  {
    hide Scan, Refs, Lru, OnDisk, Apart, Clean, DirOk, Dotted, Refer;
    var t := Filled(s, v, dp, e);
    assert Shape(t);
    FilledCached(s, v, dp, e);
    FilledIds(s, v, dp, e);
  }

  lemma FilledCached(s: S, v: nat, dp: nat, e: Entry)
    requires Shape(s) && Parents(s) && Cached(s) && Childless(s, v) && v < s.n && dp <= s.n && v != dp
    requires s.ent[dp].valid == 1 && IsDir(s.ent[dp].attr) && s.ent[dp].firstClus in s.dirs
    requires !e.dirty && Searchable(e.name) && e.firstClus < U32 && e.fileSize < U32
    requires Scan(s.dirs[s.ent[dp].firstClus], 0, e.name) == Hit(e.off, Info(e.attr, e.firstClus, e.fileSize))
    requires forall c :: 0 <= c < s.n && s.ent[c].valid == 1 ==> s.ent[c].parent != dp || s.ent[c].name != e.name
    requires Shape(Filled(s, v, dp, e))
    ensures Cached(Filled(s, v, dp, e))
  {
    hide Scan;
    var t := Filled(s, v, dp, e);
    FilledApart(s, v, dp, e, t);
    forall c | 0 <= c < t.n && t.ent[c].valid == 1
      ensures OnDisk(t.ent, t.dirs, c)
    {
      hide Apart, Clean;
      if c != v {
        assert OnDisk(s.ent, s.dirs, c);
        assert s.ent[c].parent != v;
      }
    }
    hide OnDisk, Filled;
  }

  lemma FilledApart(s: S, v: nat, dp: nat, e: Entry, t: S)
    requires Shape(s) && Cached(s) && v < s.n && dp <= s.n && v != dp && !e.dirty && s.ent[dp].valid == 1
      && IsDir(s.ent[dp].attr)
    requires forall c :: 0 <= c < s.n && s.ent[c].valid == 1 ==> s.ent[c].parent != dp || s.ent[c].name != e.name
    requires t == Filled(s, v, dp, e) && Shape(t)
    ensures forall c {:trigger Clean(t.ent[c])} :: 0 <= c < t.n ==> Clean(t.ent[c])
    ensures forall c, c' {:trigger Apart(t.ent[c], t.ent[c'])} :: 0 <= c < c' < t.n ==> Apart(t.ent[c], t.ent[c'])
  {
    hide OnDisk;
    forall c | 0 <= c < t.n
      ensures Clean(t.ent[c])
    {
      assert Clean(s.ent[c]);
    }
    forall c, c' | 0 <= c < c' < t.n
      ensures Apart(t.ent[c], t.ent[c'])
    {
      assert Apart(s.ent[c], s.ent[c']);
    }
  }

  lemma FilledIds(s: S, v: nat, dp: nat, e: Entry)
    requires Shape(s) && Parents(s) && Tree(s.dirs, s.ent[s.n].firstClus) && Cached(s) && DirIds(s) && v < s.n
      && dp <= s.n && v != dp
    requires s.ent[v].valid == 0 && s.ent[dp].valid == 1 && IsDir(s.ent[dp].attr)
    requires s.ent[dp].firstClus in s.dirs && Searchable(e.name)
    requires Scan(s.dirs[s.ent[dp].firstClus], 0, e.name) == Hit(e.off, Info(e.attr, e.firstClus, e.fileSize))
    requires forall c :: 0 <= c < s.n && s.ent[c].valid == 1 ==> s.ent[c].parent != dp || s.ent[c].name != e.name
    requires Shape(Filled(s, v, dp, e))
    ensures DirIds(Filled(s, v, dp, e))
  {
    var t := Filled(s, v, dp, e);
    if IsDir(e.attr) {
      assert Refer(s.dirs, s.ent[dp].firstClus, e.name, e.firstClus);
    }
    hide Scan, Refer, Cached, Parents;
    forall c | 0 <= c <= s.n && HasDir(s.ent[c]) && IsDir(e.attr)
      ensures s.ent[c].firstClus != e.firstClus
    {
      NotYetCached(s, dp, e.name, e.firstClus, c);
    }
    IdsFrom(s, t, v);
  }

  /** A subdirectory found by a scan whose name is not cached is under no cached first cluster. */
  lemma NotYetCached(s: S, dp: nat, name: seq<byte>, f: nat, c: nat)
    requires Shape(s) && Parents(s) && Tree(s.dirs, s.ent[s.n].firstClus) && Cached(s) && DirIds(s) && dp <= s.n
    requires s.ent[dp].valid == 1 && IsDir(s.ent[dp].attr) && Refer(s.dirs, s.ent[dp].firstClus, name, f)
    requires forall c :: 0 <= c < s.n && s.ent[c].valid == 1 ==> s.ent[c].parent != dp || s.ent[c].name != name
    requires c <= s.n && HasDir(s.ent[c])
    ensures s.ent[c].firstClus != f
  {
    hide Scan, Refer, DirOk, Dotted, Cached, Parents;
    if c < s.n && s.ent[c].valid == 1 {
      CachedRefer(s, c);
      assert HasDir(s.ent[s.ent[c].parent]) && HasDir(s.ent[dp]);
    }
  }

  /** A cached directory is named on disk by its parent. */
  lemma CachedRefer(s: S, c: nat)
    requires Shape(s) && Parents(s) && Cached(s) && c < s.n && s.ent[c].valid == 1 && IsDir(s.ent[c].attr)
    ensures s.ent[c].parent <= s.n && HasDir(s.ent[s.ent[c].parent])
    ensures Refer(s.dirs, s.ent[s.ent[c].parent].firstClus, s.ent[c].name, s.ent[c].firstClus)
  {
    hide Scan;
    assert OnDisk(s.ent, s.dirs, c);
    assert Clean(s.ent[c]);
  }

  /** Entries other than `v` keep the directories they stand for; `v` brings a new one or none. */
  lemma IdsFrom(s: S, t: S, v: nat)
    requires Shape(s) && DirIds(s) && Shape(t) && t.n == s.n && v < s.n
    requires forall c {:trigger t.ent[c]} :: 0 <= c <= s.n && c != v && HasDir(t.ent[c]) ==>
      HasDir(s.ent[c]) && t.ent[c].firstClus == s.ent[c].firstClus && t.ent[c].valid == s.ent[c].valid
    requires t.ent[t.n].attr == s.ent[s.n].attr
    requires forall c {:trigger s.ent[c]} ::
      0 <= c <= s.n && c != v && HasDir(s.ent[c]) && HasDir(t.ent[v]) ==> s.ent[c].firstClus != t.ent[v].firstClus
    requires HasDir(t.ent[v]) ==> t.ent[v].firstClus in t.dirs
    requires forall d {:trigger d in t.dirs} :: d in s.dirs ==> d in t.dirs
    requires forall d, n, f {:trigger Refer(t.dirs, d, n, f)} ::
      Refer(t.dirs, d, n, f) ==> Refer(s.dirs, d, n, f) || (HasDir(t.ent[v]) && f == t.ent[v].firstClus)
    requires t.ent[v].valid == -1 && HasDir(t.ent[v]) ==>
      forall d, n {:trigger Refer(t.dirs, d, n, t.ent[v].firstClus)} :: !Refer(t.dirs, d, n, t.ent[v].firstClus)
    ensures DirIds(t)
  {
    hide Refer, HasDir;
    forall c, d, n | 0 <= c < t.n && t.ent[c].valid == -1 && HasDir(t.ent[c])
      ensures !Refer(t.dirs, d, n, t.ent[c].firstClus)
    {
      if c != v {
        assert HasDir(s.ent[c]);
        assert !Refer(s.dirs, d, n, s.ent[c].firstClus);
      }
    }
  }

  // ---------- Steps that rewrite one directory ----------

  /** Rewriting a directory at `name` leaves every other cached entry faithful. */
  lemma KeepOnDisk(s: S, dp: nat, slots': seq<Slot>, name: seq<byte>, c: nat)
    requires Shape(s) && Parents(s) && Cached(s) && DirIds(s) && dp <= s.n && HasDir(s.ent[dp])
    requires s.ent[dp].firstClus in s.dirs && OthersSame(s.dirs[s.ent[dp].firstClus], slots', name)
    requires c < s.n && s.ent[c].valid == 1 && (s.ent[c].parent != dp || s.ent[c].name != name)
    ensures OnDisk(s.ent, s.dirs[s.ent[dp].firstClus := slots'], c)
  {
    hide Scan;
    assert OnDisk(s.ent, s.dirs, c);
    var p := s.ent[c].parent;
    assert HasDir(s.ent[p]);
    if p == dp {
      var n := s.ent[c].name;
      assert SameHit(Scan(slots', 0, n), Scan(s.dirs[s.ent[dp].firstClus], 0, n));
    }
  }

  /** A rewrite that brings no new subdirectory name keeps the tree. */
  lemma TreeKeep(dirs: map<nat, seq<Slot>>, root: nat, d: nat, slots': seq<Slot>, name: seq<byte>)
    requires Tree(dirs, root) && d in dirs && Rewrites(dirs[d], slots', name)
    requires forall f {:trigger Refer(dirs, d, name, f)} ::
      Refer(dirs[d := slots'], d, name, f) ==> Refer(dirs, d, name, f)
    ensures Tree(dirs[d := slots'], root)
    ensures forall d', n, f {:trigger Refer(dirs[d := slots'], d', n, f)} ::
      Refer(dirs[d := slots'], d', n, f) ==> Refer(dirs, d', n, f)
  {
    hide Scan, DirOk, Dotted;
    var dirs' := dirs[d := slots'];
    forall d', n, f | Refer(dirs', d', n, f)
      ensures Refer(dirs, d', n, f)
    {
      if d' == d && n == name {
        assert Refer(dirs, d, name, f) || true;
      } else if d' == d {
        assert SameHit(Scan(slots', 0, n), Scan(dirs[d], 0, n));
      }
    }
  }

  /** `eupdate`: write back first cluster and size of entry `x`. */
  function Flushed(s: S, x: nat, slots': seq<Slot>): S
    requires x < |s.ent| && s.ent[x].parent < |s.ent|
  {
    s.(dirs := s.dirs[s.ent[s.ent[x].parent].firstClus := slots'], ent := s.ent[x := s.ent[x].(dirty := false)])
  }

  lemma FlushedInv(s: S, x: nat, slots': seq<Slot>)
    requires Inv(s) && x < s.n && s.ent[x].valid == 1 && s.ent[x].dirty && s.ent[x].parent <= s.n
    requires s.ent[s.ent[x].parent].firstClus in s.dirs && s.ent[x].name != []
    requires Rewrites(s.dirs[s.ent[s.ent[x].parent].firstClus], slots', s.ent[x].name)
    requires Scan(slots', 0, s.ent[x].name) ==
      Hit(s.ent[x].off, Info(s.ent[x].attr, s.ent[x].firstClus, s.ent[x].fileSize))
    ensures Inv(Flushed(s, x, slots'))
  {
    hide Scan, DirOk, Dotted;
    var t, dp := Flushed(s, x, slots'), s.ent[x].parent;
    var d := s.ent[dp].firstClus;
    assert Clean(s.ent[x]) && OnDisk(s.ent, s.dirs, x);
    assert HasDir(s.ent[dp]);
    TreeKeep(s.dirs, s.ent[s.n].firstClus, d, slots', s.ent[x].name);
    SameCore(s, t);
    forall c | 0 <= c < t.n && t.ent[c].valid == 1
      ensures OnDisk(t.ent, t.dirs, c)
    {
      if c != x {
        assert c < x ==> Apart(s.ent[c], s.ent[x]);
        assert x < c ==> Apart(s.ent[x], s.ent[c]);
        KeepOnDisk(s, dp, slots', s.ent[x].name, c);
      }
    }
    FlushedRest(s, x, slots');
  }

  lemma FlushedRest(s: S, x: nat, slots': seq<Slot>)
    requires Shape(s) && Cached(s) && DirIds(s) && x < s.n && s.ent[x].parent <= s.n && Shape(Flushed(s, x, slots'))
    requires s.ent[s.ent[x].parent].firstClus in s.dirs
    requires forall d', n, f {:trigger Refer(Flushed(s, x, slots').dirs, d', n, f)} ::
      Refer(Flushed(s, x, slots').dirs, d', n, f) ==> Refer(s.dirs, d', n, f)
    requires forall c ::
      0 <= c < s.n && Flushed(s, x, slots').ent[c].valid == 1 ==>
        OnDisk(Flushed(s, x, slots').ent, Flushed(s, x, slots').dirs, c)
    ensures Cached(Flushed(s, x, slots')) && DirIds(Flushed(s, x, slots'))
  {
    hide Refer, OnDisk;
    var t := Flushed(s, x, slots');
    forall c | 0 <= c <= s.n && HasDir(t.ent[c])
      ensures HasDir(s.ent[c]) && t.ent[c].firstClus in t.dirs
    {
      assert HasDir(s.ent[c]);
    }
    forall c | 0 <= c < t.n
      ensures Clean(t.ent[c])
    {
      assert Clean(s.ent[c]);
    }
    forall c, c' | 0 <= c < c' < t.n
      ensures Apart(t.ent[c], t.ent[c'])
    {
      assert Apart(s.ent[c], s.ent[c']);
    }
    IdsSame(s, t);
  }

  /** Entries that stand for the same directories as before, on a disk with no new subdirectory names. */
  lemma IdsSame(s: S, t: S)
    requires Shape(s) && DirIds(s) && Shape(t) && t.n == s.n && t.ent[t.n].attr == s.ent[s.n].attr
    requires forall c {:trigger t.ent[c]} :: 0 <= c <= s.n && HasDir(t.ent[c]) ==>
      && HasDir(s.ent[c]) && t.ent[c].firstClus == s.ent[c].firstClus && t.ent[c].firstClus in t.dirs
      && (t.ent[c].valid == -1 ==> s.ent[c].valid == -1)
    requires forall d, n, f {:trigger Refer(t.dirs, d, n, f)} :: Refer(t.dirs, d, n, f) ==> Refer(s.dirs, d, n, f)
    ensures DirIds(t)
  {
    hide Refer, HasDir;
    forall c, c' | 0 <= c < c' <= t.n && HasDir(t.ent[c]) && HasDir(t.ent[c'])
      ensures t.ent[c].firstClus != t.ent[c'].firstClus
    {
      assert HasDir(s.ent[c]) && HasDir(s.ent[c']);
    }
    forall c, d, n | 0 <= c < t.n && t.ent[c].valid == -1 && HasDir(t.ent[c])
      ensures !Refer(t.dirs, d, n, t.ent[c].firstClus)
    {
      assert HasDir(s.ent[c]) && !Refer(s.dirs, d, n, s.ent[c].firstClus);
    }
  }

  /** The structural part only looks at validity, counts and parents. */
  lemma SameCore(s: S, t: S)
    requires Core(s) && t.n == s.n && t.lru == s.lru && t.pos == s.pos && t.holders == s.holders && t.rank == s.rank
      && |t.ent| == |s.ent|
    requires forall c {:trigger t.ent[c]} :: 0 <= c <= s.n ==>
      t.ent[c].valid == s.ent[c].valid && t.ent[c].ref == s.ent[c].ref && t.ent[c].parent == s.ent[c].parent
    ensures Core(t)
  {
    forall p | 0 <= p <= s.n
      ensures t.ent[p].ref == t.holders[p] + Kids(t.ent, t.n, p)
    {
      KidsSame(s.ent, t.ent, s.n, p);
      assert s.ent[p].ref == s.holders[p] + Kids(s.ent, s.n, p);
    }
  }

  lemma {:induction false} KidsSame(ent: seq<Entry>, ent': seq<Entry>, n: nat, p: nat)
    requires n <= |ent| == |ent'|
    requires forall c {:trigger ent'[c]} :: 0 <= c < n ==> (Holding(ent'[c], p) <==> Holding(ent[c], p))
    ensures Kids(ent', n, p) == Kids(ent, n, p)
  {
    if n > 0 {
      KidsSame(ent, ent', n - 1, p);
    }
  }

  /** Dropping the last reference does not concern the disk, provided nothing is left to write. */
  lemma DroppedDisk(s: S, x: nat)
    requires Core(s) && DiskInv(s) && x < s.n && Attached(s.ent[x]) && s.ent[x].ref == 1 && s.holders[x] > 0
    requires s.ent[x].parent <= s.n && Shape(Dropped(s, x)) && (s.ent[x].valid == 1 ==> !s.ent[x].dirty)
    ensures DiskInv(Dropped(s, x))
  {
    hide Scan, Refs, Lru, Parents, Refer, OnDisk, Tree, ToFront, FrontPos;
    var t := Dropped(s, x);
    forall c | 0 <= c < t.n && t.ent[c].valid == 1
      ensures OnDisk(t.ent, t.dirs, c)
    {
      OnDiskSet(s.ent, s.dirs, x, s.ent[x].(ref := 0), c);
    }
    TameRest(s, t);
    hide Clean, Apart;
    forall c | 0 <= c <= s.n && HasDir(t.ent[c])
      ensures HasDir(s.ent[c]) && t.ent[c].firstClus in t.dirs
    {
      assert HasDir(s.ent[c]);
    }
    IdsSame(s, t);
  }

  /** A reference count is not on disk. */
  lemma OnDiskSet(ent: seq<Entry>, dirs: map<nat, seq<Slot>>, x: nat, e: Entry, c: nat)
    requires x < |ent| && c < |ent| && OnDisk(ent, dirs, c) && e.(ref := ent[x].ref) == ent[x]
    ensures OnDisk(ent[x := e], dirs, c)
  {
    hide Scan;
  }

  /** The entry is still about the same name, and has no more left to write than before. */
  predicate Tame(e: Entry, e': Entry) {
    && (e'.valid == 1 ==> e.valid == 1 && e'.parent == e.parent && e'.name == e.name)
    && (Clean(e) ==> Clean(e'))
  }

  lemma TameRest(s: S, t: S)
    requires Shape(s) && Shape(t) && t.n == s.n && Cached(s)
    requires forall c {:trigger t.ent[c]} :: 0 <= c < s.n ==> Tame(s.ent[c], t.ent[c])
    ensures forall c {:trigger Clean(t.ent[c])} :: 0 <= c < t.n ==> Clean(t.ent[c])
    ensures forall c, c' {:trigger Apart(t.ent[c], t.ent[c'])} :: 0 <= c < c' < t.n ==> Apart(t.ent[c], t.ent[c'])
  {
    hide OnDisk;
    forall c | 0 <= c < t.n
      ensures Clean(t.ent[c])
    {
      assert Clean(s.ent[c]);
    }
    forall c, c' | 0 <= c < c' < t.n
      ensures Apart(t.ent[c], t.ent[c'])
    {
      assert Apart(s.ent[c], s.ent[c']);
    }
  }

  /** `etrunc` of a removed entry that nobody references: its clusters are freed, with them the directory it was. */
  function Truncated(s: S, x: nat): S
    requires x < |s.ent|
  {
    s.(ent := s.ent[x := s.ent[x].(firstClus := 0, fileSize := 0, dirty := true)],
       dirs := if IsDir(s.ent[x].attr) then s.dirs - {s.ent[x].firstClus} else s.dirs)
  }

  lemma TruncatedInv(s: S, x: nat)
    requires Inv(s) && x < s.n && s.ent[x].valid == -1 && s.ent[x].ref == 0
    requires IsDir(s.ent[x].attr) ==>
      && (forall d, n {:trigger Refer(s.dirs, d, n, s.ent[x].firstClus)} :: !Refer(s.dirs, d, n, s.ent[x].firstClus))
      && (forall c {:trigger HasDir(s.ent[c])} ::
          0 <= c <= s.n && HasDir(s.ent[c]) ==> s.ent[c].firstClus != s.ent[x].firstClus)
    ensures Inv(Truncated(s, x))
  {
    hide Refer, Scan, Tree, Refs, Lru;
    var t := Truncated(s, x);
    forall d, n, g | Refer(t.dirs, d, n, g)
      ensures Refer(s.dirs, d, n, g)
    {
      ReferFewer(s.dirs, t.dirs, d, n, g);
    }
    forall c | 0 <= c < t.n && t.ent[c].valid == 1
      ensures OnDisk(t.ent, t.dirs, c)
    {
      assert OnDisk(s.ent, s.dirs, c);
      assert HasDir(s.ent[s.ent[c].parent]);
      OnDiskFewer(s.ent, s.dirs, t.ent, t.dirs, c);
    }
    TruncatedRest(s, x, t);
  }

  /** What a part of the directories says, all of them say. */
  lemma ReferFewer(dirs: map<nat, seq<Slot>>, dirs': map<nat, seq<Slot>>, d: nat, n: seq<byte>, g: nat)
    requires dirs'.Keys <= dirs.Keys && (forall k {:trigger dirs'[k]} :: k in dirs' ==> dirs'[k] == dirs[k])
    requires Refer(dirs', d, n, g)
    ensures Refer(dirs, d, n, g)
  {
    assert dirs'[d] == dirs[d];
  }

  /** An entry stays in step with the disk when it, its parent and its directory stay. */
  lemma OnDiskFewer(ent: seq<Entry>, dirs: map<nat, seq<Slot>>, ent': seq<Entry>, dirs': map<nat, seq<Slot>>, c: nat)
    requires c < |ent| == |ent'| && OnDisk(ent, dirs, c) && ent'[c] == ent[c]
    requires ent'[ent[c].parent].attr == ent[ent[c].parent].attr
    requires ent'[ent[c].parent].firstClus == ent[ent[c].parent].firstClus
    requires ent[ent[c].parent].firstClus in dirs'
    requires dirs'[ent[ent[c].parent].firstClus] == dirs[ent[ent[c].parent].firstClus]
    ensures OnDisk(ent', dirs', c)
  {
    hide Scan;
  }

  lemma TruncatedRest(s: S, x: nat, t: S)
    requires Inv(s) && x < s.n && s.ent[x].valid == -1 && s.ent[x].ref == 0 && t == Truncated(s, x)
    requires IsDir(s.ent[x].attr) ==>
      forall c {:trigger HasDir(s.ent[c])} ::
        0 <= c <= s.n && HasDir(s.ent[c]) ==> s.ent[c].firstClus != s.ent[x].firstClus
    requires forall d, n, g {:trigger Refer(t.dirs, d, n, g)} :: Refer(t.dirs, d, n, g) ==> Refer(s.dirs, d, n, g)
    requires IsDir(s.ent[x].attr) ==>
      forall d, n {:trigger Refer(s.dirs, d, n, s.ent[x].firstClus)} :: !Refer(s.dirs, d, n, s.ent[x].firstClus)
    requires forall c :: 0 <= c < t.n && t.ent[c].valid == 1 ==> OnDisk(t.ent, t.dirs, c)
    ensures Inv(t)
  {
    hide Refer, OnDisk, DirOk, Dotted, Refs, Lru, Parents;
    SameCore(s, t);
    assert HasDir(s.ent[s.n]);
    forall c | 0 <= c < t.n
      ensures Clean(t.ent[c])
    {
      assert Clean(s.ent[c]);
    }
    forall c, c' | 0 <= c < c' < t.n
      ensures Apart(t.ent[c], t.ent[c'])
    {
      assert Apart(s.ent[c], s.ent[c']);
    }
    forall c | 0 <= c <= s.n && HasDir(t.ent[c])
      ensures HasDir(s.ent[c]) && t.ent[c].firstClus in t.dirs && t.ent[c].firstClus == s.ent[c].firstClus
    {
      assert HasDir(s.ent[c]);
    }
    IdsSame(s, t);
    assert Tree(t.dirs, t.ent[t.n].firstClus) by {
      TreeShrink(s.dirs, t.dirs, s.ent[s.n].firstClus, if IsDir(s.ent[x].attr) then {s.ent[x].firstClus} else {});
    }
  }

  lemma TreeShrink(dirs: map<nat, seq<Slot>>, dirs': map<nat, seq<Slot>>, root: nat, gone: set<nat>)
    requires Tree(dirs, root) && dirs' == dirs - gone && root !in gone
    requires forall d, n, f {:trigger Refer(dirs', d, n, f)} :: Refer(dirs', d, n, f) ==> Refer(dirs, d, n, f)
    requires forall d, n, f {:trigger Refer(dirs, d, n, f)} :: f in gone ==> !Refer(dirs, d, n, f)
    ensures Tree(dirs', root)
  {
    hide Refer, DirOk, Dotted;
    forall d | d in dirs'
      ensures DirOk(dirs'[d]) && (d != root ==> Dotted(dirs'[d]))
    {
      assert dirs[d] == dirs'[d];
    }
  }

  /** `eremove`: the name is erased from the parent directory and the entry marked removed. */
  function Removed(s: S, x: nat, slots': seq<Slot>): S
    requires x < |s.ent| && s.ent[x].parent < |s.ent|
  {
    s.(dirs := s.dirs[s.ent[s.ent[x].parent].firstClus := slots'], ent := s.ent[x := s.ent[x].(valid := -1)])
  }

  /** No name can be found in `slots`. */
  ghost predicate NoNames(slots: seq<Slot>) {
    forall n {:trigger Scan(slots, 0, n)} :: Searchable(n) ==> !Scan(slots, 0, n).Hit?
  }

  lemma RemovedInv(s: S, x: nat, slots': seq<Slot>)
    requires Inv(s) && x < s.n && s.ent[x].valid == 1 && s.ent[x].ref > 0 && s.ent[x].parent <= s.n
    requires IsDir(s.ent[x].attr) ==> s.ent[x].firstClus in s.dirs && NoNames(s.dirs[s.ent[x].firstClus])
    requires s.ent[s.ent[x].parent].firstClus in s.dirs && s.ent[x].name != []
    requires Rewrites(s.dirs[s.ent[s.ent[x].parent].firstClus], slots', s.ent[x].name)
    requires Scan(slots', 0, s.ent[x].name).Miss?
    ensures Inv(Removed(s, x, slots'))
  {
    hide Scan, DirOk, Dotted;
    var t, dp := Removed(s, x, slots'), s.ent[x].parent;
    assert OnDisk(s.ent, s.dirs, x) && HasDir(s.ent[dp]);
    TreeKeep(s.dirs, s.ent[s.n].firstClus, s.ent[dp].firstClus, slots', s.ent[x].name);
    RemovedCore(s, x, t);
    forall c | 0 <= c < t.n && t.ent[c].valid == 1
      ensures OnDisk(t.ent, t.dirs, c)
    {
      assert c < x ==> Apart(s.ent[c], s.ent[x]);
      assert x < c ==> Apart(s.ent[x], s.ent[c]);
      KeepOnDisk(s, dp, slots', s.ent[x].name, c);
    }
    RemovedRest(s, x, t);
  }

  lemma RemovedCore(s: S, x: nat, t: S)
    requires Inv(s) && x < s.n && s.ent[x].valid == 1 && s.ent[x].ref > 0
    requires t.n == s.n && t.lru == s.lru && t.pos == s.pos && t.holders == s.holders && t.rank == s.rank
    requires t.ent == s.ent[x := s.ent[x].(valid := -1)]
    requires IsDir(s.ent[x].attr) ==> s.ent[x].firstClus in s.dirs && NoNames(s.dirs[s.ent[x].firstClus])
    ensures Core(t)
  {
    hide Scan, Tree, DirIds;
    forall c | 0 <= c < s.n && s.ent[c].valid == 1
      ensures s.ent[c].parent != x
    {
      assert OnDisk(s.ent, s.dirs, c);
    }
    forall p | 0 <= p <= s.n
      ensures t.ent[p].ref == t.holders[p] + Kids(t.ent, t.n, p)
    {
      KidsSet(s.ent, s.n, x, t.ent[x], p);
      assert s.ent[p].ref == s.holders[p] + Kids(s.ent, s.n, p);
    }
  }

  lemma RemovedRest(s: S, x: nat, t: S)
    requires Inv(s) && x < s.n && s.ent[x].valid == 1 && s.ent[x].parent <= s.n && Shape(t) && t.n == s.n
    requires t.ent == s.ent[x := s.ent[x].(valid := -1)] && s.dirs.Keys <= t.dirs.Keys
    requires forall d, n, f {:trigger Refer(t.dirs, d, n, f)} :: Refer(t.dirs, d, n, f) ==> Refer(s.dirs, d, n, f)
    requires forall f :: !Refer(t.dirs, s.ent[s.ent[x].parent].firstClus, s.ent[x].name, f)
    requires forall c :: 0 <= c < t.n && t.ent[c].valid == 1 ==> OnDisk(t.ent, t.dirs, c)
    ensures Cached(t) && DirIds(t)
  {
    if IsDir(s.ent[x].attr) {
      CachedRefer(s, x);
    }
    hide Refer, OnDisk, DirOk, Dotted, Refs, Lru, Parents;
    forall c | 0 <= c < t.n
      ensures Clean(t.ent[c])
    {
      assert Clean(s.ent[c]);
    }
    forall c, c' | 0 <= c < c' < t.n
      ensures Apart(t.ent[c], t.ent[c'])
    {
      assert Apart(s.ent[c], s.ent[c']);
    }
    forall c | 0 <= c <= s.n && HasDir(t.ent[c])
      ensures HasDir(s.ent[c]) && t.ent[c].firstClus in t.dirs && t.ent[c].firstClus == s.ent[c].firstClus
    {
      assert HasDir(s.ent[c]);
    }
    forall c, d, n | 0 <= c < t.n && t.ent[c].valid == -1 && HasDir(t.ent[c])
      ensures !Refer(t.dirs, d, n, t.ent[c].firstClus)
    {
      assert HasDir(s.ent[c]);
      assert c != x ==> !Refer(s.dirs, d, n, s.ent[c].firstClus);
    }
    forall c, c' | 0 <= c < c' <= t.n && HasDir(t.ent[c]) && HasDir(t.ent[c'])
      ensures t.ent[c].firstClus != t.ent[c'].firstClus
    {
      assert HasDir(s.ent[c]) && HasDir(s.ent[c']);
    }
  }

  /** A file is written or truncated through entry `x`: cluster and size change in memory only. */
  function Modified(s: S, x: nat, firstClus: nat, fileSize: nat): S
    requires x < |s.ent|
  {
    s.(ent := s.ent[x := s.ent[x].(firstClus := firstClus, fileSize := fileSize, dirty := true)])
  }

  lemma ModifiedInv(s: S, x: nat, firstClus: nat, fileSize: nat)
    requires Inv(s) && x < s.n && s.ent[x].ref > 0 && !IsDir(s.ent[x].attr)
    requires firstClus < U32 && fileSize < U32
    ensures Inv(Modified(s, x, firstClus, fileSize))
  {
    hide Scan, Refer, DirOk, Dotted;
    var t := Modified(s, x, firstClus, fileSize);
    SameCore(s, t);
    forall c | 0 <= c < t.n && t.ent[c].valid == 1
      ensures OnDisk(t.ent, t.dirs, c)
    {
      assert OnDisk(s.ent, s.dirs, c);
    }
    forall c | 0 <= c < t.n
      ensures Clean(t.ent[c])
    {
      assert Clean(s.ent[c]);
    }
    forall c, c' | 0 <= c < c' < t.n
      ensures Apart(t.ent[c], t.ent[c'])
    {
      assert Apart(s.ent[c], s.ent[c']);
    }
    forall c | 0 <= c <= s.n && HasDir(t.ent[c])
      ensures HasDir(s.ent[c]) && t.ent[c].firstClus in t.dirs && t.ent[c].firstClus == s.ent[c].firstClus
    {
      assert HasDir(s.ent[c]);
    }
    IdsSame(s, t);
  }
}
