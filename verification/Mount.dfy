/**
 The entry cache on a real volume.  `EntryCache` works on the slots of every directory; here those slots are the
 ones stored in the cluster chains of `Fat32.FileSystem`, and each operation that touches the disk is run there
 (kernel/fs/fat32.c:562-716, 835-878).
 */
module Mount {
  import opened Bytes
  import opened DivMod
  import opened DirCodec
  import opened DirModel
  import opened Fat32Layout
  import opened Fat32Chain
  import opened Fat32
  import opened EntryState
  import opened EntryDisk
  import opened EntryCreate
  import opened EntryCache
  import opened EntryOps
  import Directory

  // ---------- What is seen of the file layer ----------

  /** An entry of the file layer: its fields, its chain, the bytes of the file and those of all its clusters. */
  datatype Face = Face(entry: Dirent, chain: seq<nat>, file: seq<byte>, raw: seq<byte>)

  ghost predicate Sound(bpc: nat, v: Vol, ent: seq<Dirent>, chain: seq<seq<nat>>, owner: seq<int>) {
    && FsInv(bpc, v, ent, chain, owner) && bpc > 0
    && forall c {:trigger v.clus[c]} :: 2 <= c < |v.clus| ==> |v.clus[c]| == bpc
  }

  ghost function FaceOf(bpc: nat, v: Vol, ent: seq<Dirent>, chain: seq<seq<nat>>, owner: seq<int>, e: nat): Face
    requires Sound(bpc, v, ent, chain, owner) && e < |ent|
  {
    EntryReadable(bpc, v, ent, chain, owner, e);
    Face(ent[e], chain[e], Content(bpc, v, chain[e], ent[e].fileSize), Content(bpc, v, chain[e], Cap(|chain[e]|, bpc)))
  }

  ghost function FacesOf(bpc: nat, v: Vol, ent: seq<Dirent>, chain: seq<seq<nat>>, owner: seq<int>): (r: seq<Face>)
    requires Sound(bpc, v, ent, chain, owner)
    ensures |r| == |ent| && forall e {:trigger r[e]} :: 0 <= e < |r| ==> r[e] == FaceOf(bpc, v, ent, chain, owner, e)
  {
    seq(|ent|, e requires 0 <= e < |ent| => FaceOf(bpc, v, ent, chain, owner, e))
  }

  /** All entries of the file layer. */
  ghost function Faces(fs: FileSystem): (r: seq<Face>)
    requires fs.Valid()
    reads fs
    ensures |r| == |fs.ent|
    ensures forall e {:trigger r[e]} ::
      0 <= e < |r| ==> r[e] == Face(fs.ent[e], fs.chain[e], fs.File(e), fs.Raw(e))
  {
    FacesOf(fs.g.bytsPerClus, fs.v, fs.ent, fs.chain, fs.owner)
  }

  /** Every entry but `e` is as it was; more may have come. */
  ghost predicate Except(a: seq<Face>, b: seq<Face>, e: int) {
    |a| <= |b| && forall x {:trigger b[x]} :: 0 <= x < |a| && x != e ==> b[x] == a[x]
  }

  lemma SameEntries(fs: FileSystem, a: seq<Face>, ent: seq<Dirent>)
    requires fs.Valid() && Except(a, Faces(fs), |a|) && |a| == |ent|
    requires forall x {:trigger a[x]} :: 0 <= x < |a| ==> a[x].entry == ent[x]
    ensures ent <= fs.ent
  {
    hide FacesOf;
    forall x | 0 <= x < |ent|
      ensures fs.ent[x] == ent[x]
    {
      assert Faces(fs)[x] == a[x];
    }
  }

  lemma PrefixCursor(ent: seq<Dirent>, mid: seq<Dirent>, ent': seq<Dirent>, p: nat)
    requires ent <= mid && SameButCursor(mid, ent', p) && p < |ent|
    ensures SameButCursor(ent, ent'[..|ent|], p) && ent'[|ent|..] == mid[|ent|..]
  {
  }

  lemma ExceptTrans(a: seq<Face>, b: seq<Face>, c: seq<Face>, e: int, e': int)
    requires Except(a, b, e) && Except(b, c, e') && (e == e' || e >= |a|)
    ensures Except(a, c, e')
  {
    assert forall x {:trigger c[x]} :: 0 <= x < |a| && x != e' ==> c[x] == b[x];
  }

  /** Entries other than `e` are seen as before when their clusters are kept. */
  lemma FacesKept(bpc: nat, v: Vol, ent: seq<Dirent>, chain: seq<seq<nat>>, owner: seq<int>,
                  v': Vol, ent': seq<Dirent>, chain': seq<seq<nat>>, owner': seq<int>, e: nat)
    requires Sound(bpc, v, ent, chain, owner) && Sound(bpc, v', ent', chain', owner') && e < |ent| == |ent'|
    requires ent' == ent[e := ent'[e]] && chain' == chain[e := chain'[e]] && OthersKept(v, v', chain, e)
    ensures Except(FacesOf(bpc, v, ent, chain, owner), FacesOf(bpc, v', ent', chain', owner'), e)
  {
    hide Content, FsInv;
    OthersSee(bpc, v, ent, chain, owner, v', ent', chain', owner', e);
  }

  // ---------- Directories ----------

  /** The slots in the clusters of `ch`. */
  ghost function SlotsIn(bpc: nat, v: Vol, ch: seq<nat>): seq<Slot>
    requires Readable(bpc, v, ch)
  {
    Directory.SlotsOf(Content(bpc, v, ch, Cap(|ch|, bpc)))
  }

  /** Directory `d` of `dirs` is the entry `at[d]`, whose first cluster is `d` and whose slots are `dirs[d]`. */
  ghost predicate Stored(bpc: nat, v: Vol, ent: seq<Dirent>, chain: seq<seq<nat>>, dirs: map<nat, seq<Slot>>,
                         at: map<nat, nat>) {
    && at.Keys == dirs.Keys && |chain| == |ent|
    && forall d {:trigger at[d]} :: d in at ==>
         && at[d] < |ent| && chain[at[d]] != [] && ent[at[d]].firstClus == d
         && Readable(bpc, v, chain[at[d]]) && SlotsIn(bpc, v, chain[at[d]]) == dirs[d]
  }

  /** The directories `dirs` are those on the volume. */
  ghost predicate Linked(fs: FileSystem, dirs: map<nat, seq<Slot>>, at: map<nat, nat>)
    reads fs
  {
    fs.Valid() && Stored(fs.g.bytsPerClus, fs.v, fs.ent, fs.chain, dirs, at)
  }

  lemma LinkedSlots(fs: FileSystem, dirs: map<nat, seq<Slot>>, at: map<nat, nat>, d: nat)
    requires Linked(fs, dirs, at) && d in at
    ensures at[d] < |fs.ent| && fs.chain[at[d]] != [] && d in dirs && Directory.Slots(fs, at[d]) == dirs[d]
  {
    hide Content, Directory.SlotsOf, FsInv;
  }

  /** Writing to one directory leaves the slots of every other alone, so it is rewriting that directory. */
  lemma StoredWrite(bpc: nat, v: Vol, ent: seq<Dirent>, chain: seq<seq<nat>>, owner: seq<int>,
                    v': Vol, ent': seq<Dirent>, chain': seq<seq<nat>>, owner': seq<int>,
                    dirs: map<nat, seq<Slot>>, at: map<nat, nat>, d: nat)
    requires Sound(bpc, v, ent, chain, owner) && Sound(bpc, v', ent', chain', owner')
    requires Stored(bpc, v, ent, chain, dirs, at) && d in at && Wrote(v, ent, chain, v', ent', chain', at[d])
    ensures at[d] < |chain'| && Readable(bpc, v', chain'[at[d]])
    ensures Stored(bpc, v', ent', chain', dirs[d := SlotsIn(bpc, v', chain'[at[d]])], at)
    ensures Except(FacesOf(bpc, v, ent, chain, owner), FacesOf(bpc, v', ent', chain', owner'), at[d])
  {
    FacesKept(bpc, v, ent, chain, owner, v', ent', chain', owner', at[d]);
    hide Content, Directory.SlotsOf, FsInv, FacesOf, Except;
    OthersSee(bpc, v, ent, chain, owner, v', ent', chain', owner', at[d]);
    EntryReadable(bpc, v', ent', chain', owner', at[d]);
  }

  /** A scan of the volume finds what the cache says about a cached name. */
  method ColdScan(fs: FileSystem, ghost s: S, ghost at: map<nat, nat>, p: nat, ghost dp: nat, name: seq<byte>)
      returns (found: DirModel.Found)
    requires Inv(s) && Linked(fs, s.dirs, at) && dp <= s.n && s.ent[dp].valid == 1 && IsDir(s.ent[dp].attr)
      && Searchable(name)
    requires s.ent[dp].firstClus in at && p == at[s.ent[dp].firstClus]
    modifies fs
    ensures Linked(fs, s.dirs, at) && s.ent[dp].firstClus in s.dirs
      && found == Scan(s.dirs[s.ent[dp].firstClus], 0, name)
    ensures SameButCursor(old(fs.ent), fs.ent, p) && Except(old(Faces(fs)), Faces(fs), p)
    ensures forall c {:trigger s.ent[c]} :: 0 <= c < s.n && Match(s.ent[c], dp, name) ==>
      && found.Hit? && found.off == s.ent[c].off && found.info.attr == s.ent[c].attr
      && (!s.ent[c].dirty ==> found.info == Info(s.ent[c].attr, s.ent[c].firstClus, s.ent[c].fileSize))
  {
    hide Scan, Refs, Lru, Parents, DiskInv, FsInv, Directory.SlotsOf, Content, FacesOf, Except;
    LinkedSlots(fs, s.dirs, at, s.ent[dp].firstClus);
    found := Directory.DirScan(fs, p, name);
    LinkedDirs(s, dp);
    CursorOnly(fs.g.bytsPerClus, fs.v, old(fs.ent), fs.ent, fs.chain, s.dirs, at, p);
    SelfKept(fs.g.bytsPerClus, fs.v, fs.ent, fs.chain, fs.owner, p);
    FacesKept(fs.g.bytsPerClus, fs.v, old(fs.ent), fs.chain, fs.owner, fs.v, fs.ent, fs.chain, fs.owner, p);
    forall c | 0 <= c < s.n && Match(s.ent[c], dp, name)
      ensures found.Hit? && found.off == s.ent[c].off && found.info.attr == s.ent[c].attr
      ensures !s.ent[c].dirty ==> found.info == Info(s.ent[c].attr, s.ent[c].firstClus, s.ent[c].fileSize)
    {
      HitIsScan(s, c, dp, name);
    }
  }

  lemma LinkedDirs(s: S, dp: nat)
    requires Inv(s) && dp <= s.n && s.ent[dp].valid == 1 && IsDir(s.ent[dp].attr)
    ensures s.ent[dp].firstClus in s.dirs
  {
    DirThere(s, dp);
  }

  /** A cursor that moves changes no slots. */
  lemma CursorOnly(bpc: nat, v: Vol, ent: seq<Dirent>, ent': seq<Dirent>, chain: seq<seq<nat>>,
                   dirs: map<nat, seq<Slot>>, at: map<nat, nat>, p: nat)
    requires Stored(bpc, v, ent, chain, dirs, at) && p < |ent| && SameButCursor(ent, ent', p)
    ensures Stored(bpc, v, ent', chain, dirs, at)
  {
    hide SlotsIn;
  }

  function Patched(slots: seq<Slot>, k: nat, firstClus: nat, fileSize: nat): (r: seq<Slot>)
    requires k < |slots| && firstClus < U32 && fileSize < U32
  {
    var de: Slot := Patch(slots[k], firstClus, fileSize);
    slots[k := de]
  }

  /** `eupdate` on the volume: the short slot of the entry at `off` is rewritten. */
  method PatchSlots(fs: FileSystem, ghost dirs: map<nat, seq<Slot>>, ghost at: map<nat, nat>, p: nat, ghost d: nat,
                    off: nat, firstClus: nat, fileSize: nat)
    requires Linked(fs, dirs, at) && d in at && d in dirs && p == at[d] && firstClus < U32 && fileSize < U32
    requires off < |dirs[d]| && off + LongCnt(dirs[d][off][0] as nat) < |dirs[d]|
    modifies fs
    ensures var k := off + LongCnt(dirs[d][off][0] as nat);
      Linked(fs, dirs[d := Patched(dirs[d], k, firstClus, fileSize)], at)
    ensures SameButCursor(old(fs.ent), fs.ent, p) && Except(old(Faces(fs)), Faces(fs), p)
  {
    hide FsInv, Directory.SlotsOf, Content, LongCnt, Patch, Stored, FacesOf, Except;
    assert 32 * off / 32 == off;
    LinkedSlots(fs, dirs, at, d);
    Directory.EUpdate(fs, p, 32 * off, firstClus, fileSize);
    StoredWrite(fs.g.bytsPerClus, old(fs.v), old(fs.ent), old(fs.chain), old(fs.owner), fs.v, fs.ent, fs.chain,
                fs.owner, dirs, at, d);
  }

  /** `eupdate` on cache and volume together. */
  method WriteBack(fs: FileSystem, ghost s: S, ghost at: map<nat, nat>, p: nat, ghost x: nat, off: nat,
                   firstClus: nat, fileSize: nat)
      returns (ghost t: S)
    requires Inv(s) && Linked(fs, s.dirs, at) && x < s.n && s.ent[x].valid == 1 && s.ent[x].dirty
      && s.ent[x].parent <= s.n
    requires off == s.ent[x].off && firstClus == s.ent[x].firstClus && fileSize == s.ent[x].fileSize
    requires Dir(s, x) in at && p == at[Dir(s, x)]
    modifies fs
    ensures Inv(t) && WrittenBack(s, t, x) && Linked(fs, t.dirs, at)
    ensures SameButCursor(old(fs.ent), fs.ent, p) && Except(old(Faces(fs)), Faces(fs), p)
  {
    hide Scan, Refs, Lru, Parents, DiskInv, Linked, Patch, LongCnt, Rewrites, Except, Faces, SameButCursor,
      FileSystem.Valid;
    ghost var slots' := DirtySlots(s, x);
    FlushedInv(s, x, slots');
    t := Flushed(s, x, slots');
    hide Inv;
    PatchSlots(fs, s.dirs, at, p, Dir(s, x), off, firstClus, fileSize);
  }

  /** `eremove` on the volume: the slots of the entry at `off` are marked. */
  method EraseSlots(fs: FileSystem, ghost dirs: map<nat, seq<Slot>>, ghost at: map<nat, nat>, p: nat, ghost d: nat,
                    off: nat)
    requires Linked(fs, dirs, at) && d in at && d in dirs && p == at[d]
    requires off < |dirs[d]| && off + LongCnt(dirs[d][off][0] as nat) < |dirs[d]|
    modifies fs
    ensures Linked(fs, dirs[d := DirModel.Erase(dirs[d], off, LongCnt(dirs[d][off][0] as nat) + 1)], at)
    ensures SameButCursor(old(fs.ent), fs.ent, p) && Except(old(Faces(fs)), Faces(fs), p)
  {
    hide FsInv, Directory.SlotsOf, Content, LongCnt, DirModel.Erase, Stored, FacesOf, Except;
    assert 32 * off / 32 == off;
    LinkedSlots(fs, dirs, at, d);
    Directory.ERemove(fs, p, 32 * off);
    StoredWrite(fs.g.bytsPerClus, old(fs.v), old(fs.ent), old(fs.chain), old(fs.owner), fs.v, fs.ent, fs.chain,
                fs.owner, dirs, at, d);
  }

  /** `eremove` on cache and volume together. */
  method Remove(fs: FileSystem, ghost s: S, ghost at: map<nat, nat>, p: nat, ghost x: nat, off: nat)
      returns (ghost t: S)
    requires Inv(s) && Linked(fs, s.dirs, at) && x < s.n && EntryPath.Live(s, x) && s.ent[x].valid == 1
      && s.ent[x].parent <= s.n
    requires IsDir(s.ent[x].attr) ==> s.ent[x].firstClus in s.dirs && IsDirEmpty(s.dirs[s.ent[x].firstClus])
    requires off == s.ent[x].off && Dir(s, x) in at && p == at[Dir(s, x)]
    modifies fs
    ensures Inv(t) && t.ent == s.ent[x := s.ent[x].(valid := -1)] && t == s.(ent := t.ent, dirs := t.dirs)
    ensures EntryOps.Erased(s.dirs, t.dirs, Dir(s, x), s.ent[x].name) && Linked(fs, t.dirs, at)
    ensures SameButCursor(old(fs.ent), fs.ent, p) && Except(old(Faces(fs)), Faces(fs), p)
  {
    hide Scan, Refs, Lru, Parents, DiskInv, Linked, LongCnt, DirModel.Erase, EntryOps.Erased, IsDirEmpty, Except,
      Faces, SameButCursor, FileSystem.Valid;
    RemoveStep(s, x);
    ghost var d := Dir(s, x);
    t := EntryDisk.Removed(s, x, DirModel.Erase(s.dirs[d], off, LongCnt(s.dirs[d][off][0] as nat) + 1));
    hide Inv;
    EraseSlots(fs, s.dirs, at, p, d, off);
  }

  /** What happens to an entry that is no directory of `dirs` does not concern them. */
  lemma StoredOthers(bpc: nat, v: Vol, ent: seq<Dirent>, chain: seq<seq<nat>>, owner: seq<int>,
                     v': Vol, ent': seq<Dirent>, chain': seq<seq<nat>>, owner': seq<int>,
                     dirs: map<nat, seq<Slot>>, at: map<nat, nat>, e: nat)
    requires Sound(bpc, v, ent, chain, owner) && Sound(bpc, v', ent', chain', owner')
    requires Stored(bpc, v, ent, chain, dirs, at) && e < |ent| == |ent'|
      && (forall d {:trigger at[d]} :: d in at ==> at[d] != e)
    requires ent' == ent[e := ent'[e]] && chain' == chain[e := chain'[e]] && OthersKept(v, v', chain, e)
    ensures Stored(bpc, v', ent', chain', dirs, at)
    ensures Except(FacesOf(bpc, v, ent, chain, owner), FacesOf(bpc, v', ent', chain', owner'), e)
  {
    FacesKept(bpc, v, ent, chain, owner, v', ent', chain', owner', e);
    hide Content, Directory.SlotsOf, FsInv, FacesOf, Except;
    OthersSee(bpc, v, ent, chain, owner, v', ent', chain', owner', e);
  }

  /**
   `etrunc` of a removed entry on the volume: its clusters are freed, and no directory but the one it was is
   touched.  `e` is its entry in the file layer.
   */
  method FreeRemoved(fs: FileSystem, ghost s: S, ghost at: map<nat, nat>, e: nat, ghost x: nat)
      returns (ghost t: S, ghost at': map<nat, nat>)
    requires Inv(s) && Linked(fs, s.dirs, at) && x < s.n && s.ent[x].valid == -1 && s.ent[x].ref == 0 && e < |fs.ent|
    requires IsDir(s.ent[x].attr) ==>
      && s.ent[x].firstClus in at && e == at[s.ent[x].firstClus]
      && (forall d, n {:trigger Refer(s.dirs, d, n, s.ent[x].firstClus)} :: !Refer(s.dirs, d, n, s.ent[x].firstClus))
      && (forall c {:trigger HasDir(s.ent[c])} ::
          0 <= c <= s.n && HasDir(s.ent[c]) ==> s.ent[c].firstClus != s.ent[x].firstClus)
    requires !IsDir(s.ent[x].attr) ==>
      fs.ent[e].firstClus == s.ent[x].firstClus && forall d {:trigger at[d]} :: d in at ==> at[d] != e
    modifies fs
    ensures Inv(t) && t == Truncated(s, x) && Linked(fs, t.dirs, at') && fs.chain == old(fs.chain)[e := []]
    ensures at' == if IsDir(s.ent[x].attr) then at - {s.ent[x].firstClus} else at
    ensures Except(old(Faces(fs)), Faces(fs), e)
    ensures fs.ent == old(fs.ent)[e := old(fs.ent)[e].(firstClus := 0, fileSize := 0, dirty := true)]
  {
    hide Scan, DiskInv, Refs, Lru, Parents, FsInv, Directory.SlotsOf, Content;
    TruncatedInv(s, x);
    t := Truncated(s, x);
    at' := if IsDir(s.ent[x].attr) then at - {s.ent[x].firstClus} else at;
    hide Inv;
    fs.ETrunc(e);
    forall d | d in at'
      ensures at'[d] < |fs.ent| && at'[d] != e && fs.chain[at'[d]] != [] && fs.ent[at'[d]].firstClus == d
      ensures Readable(fs.g.bytsPerClus, fs.v, fs.chain[at'[d]])
        && SlotsIn(fs.g.bytsPerClus, fs.v, fs.chain[at'[d]]) == t.dirs[d]
    {
      assert at[d] == at'[d] && old(fs.ent)[at[d]].firstClus == d;
      assert fs.Raw(at[d]) == old(fs.Raw(at[d]));
      EntryReadable(fs.g.bytsPerClus, fs.v, fs.ent, fs.chain, fs.owner, at[d]);
    }
  }

  // ---------- Writing ----------

  /** The entry `d` of the file layer has the fields of the cached entry `e`. */
  predicate SameFile(d: Dirent, e: Entry) {
    d.attribute == e.attr as nat && d.firstClus == e.firstClus && d.fileSize == e.fileSize
  }

  /** The cache once entry `x` has the fields of `d`; it is marked when they are new. */
  function Synced(s: S, x: nat, d: Dirent): S
    requires x < |s.ent|
  {
    var e := s.ent[x];
    s.(ent := s.ent[x := e.(firstClus := d.firstClus, fileSize := d.fileSize,
                            dirty := e.dirty || d.firstClus != e.firstClus || d.fileSize != e.fileSize)])
  }

  lemma SyncedInv(s: S, x: nat, d: Dirent)
    requires Inv(s) && x < s.n && s.ent[x].ref > 0 && !IsDir(s.ent[x].attr) && d.firstClus < U32 && d.fileSize < U32
    ensures Inv(Synced(s, x, d))
  {
    hide DiskInv, Refs, Lru, Parents;
    if d.firstClus == s.ent[x].firstClus && d.fileSize == s.ent[x].fileSize {
      assert s.ent[x].(firstClus := d.firstClus, fileSize := d.fileSize) == s.ent[x];
      assert Synced(s, x, d) == s;
    } else {
      ModifiedInv(s, x, d.firstClus, d.fileSize);
      assert Synced(s, x, d) == Modified(s, x, d.firstClus, d.fileSize);
    }
  }

  /** `file'` is `file` with `src` written at `off`. */
  predicate Overwrites(file': seq<byte>, file: seq<byte>, off: nat, src: seq<byte>) {
    off <= |file| && file' == Splice(file, off, src)
  }

  lemma FieldsFit(bpc: nat, v: Vol, ent: seq<Dirent>, chain: seq<seq<nat>>, owner: seq<int>, e: nat)
    requires FsInv(bpc, v, ent, chain, owner) && e < |ent| && |v.fat| <= U32
    ensures ent[e].firstClus < U32 && ent[e].fileSize < U32
  {
    assert FileInv(bpc, v.fat, ent[e], chain[e]);
  }

  /**
   `ewrite` of an open file on cache and volume together: the bytes are in the file, no directory changed, and what
   the directory does not know yet is marked in the cache.  The file may have been removed meanwhile.
   */
  method WriteFile(fs: FileSystem, ghost s: S, ghost at: map<nat, nat>, e: nat, ghost x: nat, src: seq<byte>, off: nat)
      returns (ok: bool, r: int, ghost t: S)
    requires Inv(s) && Linked(fs, s.dirs, at) && x < s.n && s.ent[x].ref > 0 && !IsDir(s.ent[x].attr)
    requires e < |fs.ent| && SameFile(fs.ent[e], s.ent[x]) && off < U32 && |src| < U32
    requires forall d {:trigger at[d]} :: d in at ==> at[d] != e
    modifies fs
    ensures ok ==> Inv(t) && |fs.ent| == |old(fs.ent)| && t == Synced(s, x, fs.ent[e]) && SameFile(fs.ent[e], t.ent[x])
    ensures ok ==>
      Linked(fs, t.dirs, at) && fs.ent == old(fs.ent)[e := fs.ent[e]] && Except(old(Faces(fs)), Faces(fs), e)
    ensures ok ==> if old(fs.EWriteRefused(e, off, |src|)) then r == -1 && fs.St() == old(fs.St()) else
      r == |src| && Overwrites(fs.File(e), old(fs.File(e)), off, src)
  {
    hide DiskInv, Refs, Lru, Parents, FsInv, Directory.SlotsOf, Content, Splice;
    t := s;
    ok, r := fs.EWrite(e, src, off);
    if ok && r >= 0 {
      FieldsFit(fs.g.bytsPerClus, fs.v, fs.ent, fs.chain, fs.owner, e);
      SyncedInv(s, x, fs.ent[e]);
      t := Synced(s, x, fs.ent[e]);
      hide Inv;
      forall d | d in at
        ensures at[d] < |fs.ent| && at[d] != e && fs.chain[at[d]] != [] && fs.ent[at[d]].firstClus == d
        ensures Readable(fs.g.bytsPerClus, fs.v, fs.chain[at[d]])
          && SlotsIn(fs.g.bytsPerClus, fs.v, fs.chain[at[d]]) == t.dirs[d]
      {
        assert old(fs.ent)[at[d]].firstClus == d && fs.Raw(at[d]) == old(fs.Raw(at[d]));
        EntryReadable(fs.g.bytsPerClus, fs.v, fs.ent, fs.chain, fs.owner, at[d]);
      }
    }
  }

  /** `etrunc` of a file on the volume: no directory changes. */
  method TruncateFile(fs: FileSystem, ghost dirs: map<nat, seq<Slot>>, ghost at: map<nat, nat>, e: nat)
    requires Linked(fs, dirs, at) && e < |fs.ent| && forall d {:trigger at[d]} :: d in at ==> at[d] != e
    modifies fs
    ensures Linked(fs, dirs, at) && Except(old(Faces(fs)), Faces(fs), e)
    ensures fs.ent == old(fs.ent)[e := old(fs.ent)[e].(firstClus := 0, fileSize := 0, dirty := true)]
    ensures fs.chain == old(fs.chain)[e := []] && fs.File(e) == []
  {
    hide FsInv, Directory.SlotsOf, Content;
    fs.ETrunc(e);
    forall d | d in at
      ensures at[d] < |fs.ent| && at[d] != e && fs.chain[at[d]] != [] && fs.ent[at[d]].firstClus == d
      ensures Readable(fs.g.bytsPerClus, fs.v, fs.chain[at[d]])
        && SlotsIn(fs.g.bytsPerClus, fs.v, fs.chain[at[d]]) == dirs[d]
    {
      assert old(fs.ent)[at[d]].firstClus == d && fs.Raw(at[d]) == old(fs.Raw(at[d]));
      EntryReadable(fs.g.bytsPerClus, fs.v, fs.ent, fs.chain, fs.owner, at[d]);
    }
  }

  // ---------- Creating ----------

  lemma SlotsOfZeros(n: nat)
    ensures Directory.SlotsOf(Zeros(n)) == Blank(n / 32)
  {
    var r := Directory.SlotsOf(Zeros(n));
    forall i | 0 <= i < |r|
      ensures r[i] == Zeros(32)
    {
      assert r[i] == Zeros(n)[32 * i..32 * i + 32];
    }
  }

  /** The two dot entries in a cluster of zeros. */
  lemma DotsMakeFresh(n: nat, p1: nat, p2: nat, f: nat, parent: nat, s1: seq<Slot>, s2: seq<Slot>)
    requires n >= 2 && f < U32 && parent < U32
    requires |s1| == n + p1 && s1 == (Blank(n) + Blank(p1))[0 := DotSlot(0, f)]
    requires |s2| == |s1| + p2 && s2 == (s1 + Blank(p2))[1 := DotSlot(1, parent)]
    ensures s2 == FreshDir(f, parent, n + p1 + p2)
  {
    hide DotSlot;
    var g := FreshDir(f, parent, n + p1 + p2);
    forall i | 0 <= i < |s2|
      ensures s2[i] == g[i]
    {
    }
  }

  /** The first cluster of a directory is allocated. */
  lemma FirstUsed(bpc: nat, v: Vol, ent: seq<Dirent>, chain: seq<seq<nat>>, owner: seq<int>,
                  dirs: map<nat, seq<Slot>>, at: map<nat, nat>, d: nat)
    requires FsInv(bpc, v, ent, chain, owner) && Stored(bpc, v, ent, chain, dirs, at) && d in dirs
    ensures !IsFree(v.fat, d)
  {
    hide Content, Directory.SlotsOf;
    var e := at[d];
    assert FileInv(bpc, v.fat, ent[e], chain[e]);
    assert |chain[e]| > 1 ==> v.fat[chain[e][0]] == chain[e][1];
  }

  /** One more entry does not concern the directories. */
  lemma StoredMore(bpc: nat, v: Vol, ent: seq<Dirent>, ent': seq<Dirent>, chain: seq<seq<nat>>,
                   chain': seq<seq<nat>>, dirs: map<nat, seq<Slot>>, at: map<nat, nat>)
    requires Stored(bpc, v, ent, chain, dirs, at) && ent <= ent' && chain <= chain' && |ent'| == |chain'|
    ensures Stored(bpc, v, ent', chain', dirs, at)
  {
    hide SlotsIn;
  }

  /** The entry `e` is one more directory. */
  lemma StoredNew(bpc: nat, v: Vol, ent: seq<Dirent>, chain: seq<seq<nat>>, dirs: map<nat, seq<Slot>>,
                  at: map<nat, nat>, e: nat, slots: seq<Slot>)
    requires Stored(bpc, v, ent, chain, dirs, at) && e < |ent| && chain[e] != [] && Readable(bpc, v, chain[e])
      && SlotsIn(bpc, v, chain[e]) == slots
    ensures Stored(bpc, v, ent, chain, dirs[ent[e].firstClus := slots], at[ent[e].firstClus := e])
  {
    hide SlotsIn;
  }

  /** `alloc_clus` for a new directory: the cluster is zero and the first cluster of no directory. */
  method NewCluster(fs: FileSystem, ghost dirs: map<nat, seq<Slot>>, ghost at: map<nat, nat>, e: nat)
      returns (ok: bool, f: nat)
    requires Linked(fs, dirs, at) && e < |fs.ent| && fs.chain[e] == []
      && forall d {:trigger at[d]} :: d in at ==> at[d] != e
    modifies fs
    ensures ok ==> Linked(fs, dirs, at) && |fs.ent| == |old(fs.ent)| && f == fs.ent[e].firstClus < U32 && f !in dirs
    ensures ok <==> FreeCount(old(fs.v).fat) > 0
    ensures ok ==> fs.chain == old(fs.chain)[e := fs.chain[e]] && |fs.chain[e]| == 1
    ensures ok ==> FreeCount(fs.v.fat) == FreeCount(old(fs.v).fat) - 1
    ensures ok ==> Except(old(Faces(fs)), Faces(fs), e)
    ensures ok ==> fs.g.bytsPerClus / 32 >= 2 && Directory.Slots(fs, e) == Blank(fs.g.bytsPerClus / 32)
  {
    hide Directory.SlotsOf, Content, FacesOf, Except;
    ok := fs.FirstCluster(e);
    f := 0;
    if ok {
      f := fs.ent[e].firstClus;
      StoredOthers(fs.g.bytsPerClus, old(fs.v), old(fs.ent), old(fs.chain), old(fs.owner), fs.v, fs.ent, fs.chain,
                   fs.owner, dirs, at, e);
      assert FileInv(fs.g.bytsPerClus, fs.v.fat, fs.ent[e], fs.chain[e]);
      if f in dirs {
        FirstUsed(fs.g.bytsPerClus, old(fs.v), old(fs.ent), old(fs.chain), old(fs.owner), dirs, at, f);
      }
      SlotsOfZeros(fs.g.bytsPerClus);
      ClusterSlots(fs.g, fs.blocks, fs.v);
    }
  }

  lemma ClusterSlots(g: Geometry, blocks: seq<Block>, v: Vol)
    requires Rep(g, blocks, v)
    ensures g.bytsPerClus / 32 >= 2
  {
  }

  /** "." and ".." in the first cluster of a new directory. */
  method MakeDots(fs: FileSystem, ghost dirs: map<nat, seq<Slot>>, ghost at: map<nat, nat>, e: nat, f: nat,
                  parent: nat, ghost n: nat) returns (ghost size: nat)
    requires Linked(fs, dirs, at) && e < |fs.ent| && fs.chain[e] != []
      && forall d {:trigger at[d]} :: d in at ==> at[d] != e
    requires f < U32 && parent < U32 && n >= 2 && Directory.Slots(fs, e) == Blank(n)
    modifies fs
    ensures Linked(fs, dirs, at) && |fs.ent| == |old(fs.ent)| && fs.ent[e].firstClus == old(fs.ent)[e].firstClus
    ensures fs.chain == old(fs.chain) && FreeCount(fs.v.fat) == FreeCount(old(fs.v).fat)
    ensures Except(old(Faces(fs)), Faces(fs), e)
    ensures size >= 2 && Directory.Slots(fs, e) == FreshDir(f, parent, size)
  {
    hide FsInv, Directory.SlotsOf, Content, FreshDir, DotSlot, FacesOf, Except;
    ghost var was := Faces(fs);
    ghost var p1 := Directory.EMakeDot(fs, e, f, 0);
    ghost var s1, v1, ent1, chain1, owner1 := Directory.Slots(fs, e), fs.v, fs.ent, fs.chain, fs.owner;
    ghost var mid := Faces(fs);
    StoredOthers(fs.g.bytsPerClus, old(fs.v), old(fs.ent), old(fs.chain), old(fs.owner), v1, ent1, chain1, owner1,
                 dirs, at, e);
    ghost var p2 := Directory.EMakeDot(fs, e, parent, 32);
    StoredOthers(fs.g.bytsPerClus, v1, ent1, chain1, owner1, fs.v, fs.ent, fs.chain, fs.owner, dirs, at, e);
    size := n + p1 + p2;
    DotsMakeFresh(n, p1, p2, f, parent, s1, Directory.Slots(fs, e));
    ExceptTrans(was, mid, Faces(fs), e, e);
  }

  /** The directory part of `ealloc`: a cluster for the new directory, with "." and "..". */
  method MakeDir(fs: FileSystem, ghost dirs: map<nat, seq<Slot>>, ghost at: map<nat, nat>, parent: nat)
      returns (ok: bool, e: nat, f: nat, ghost size: nat)
    requires Linked(fs, dirs, at) && parent < U32
    modifies fs
    ensures ok ==> f < U32 && f !in dirs && size >= 2
    ensures ok ==> Linked(fs, dirs[f := FreshDir(f, parent, size)], at[f := e])
    ensures ok ==> e < |fs.ent| && DotsIn(Directory.Slots(fs, e), f, parent)
    ensures ok ==> e == |old(fs.ent)| && |fs.ent| == e + 1 && Except(old(Faces(fs)), Faces(fs), e)
    ensures ok ==> old(fs.ent) <= fs.ent && old(fs.chain) <= fs.chain
    ensures ok <==> FreeCount(old(fs.v).fat) > 0
    ensures ok ==> FreeCount(fs.v.fat) == FreeCount(old(fs.v).fat) - 1
  {
    hide FsInv, Directory.SlotsOf, Content, FreshDir;
    ghost var was := Faces(fs);
    size := 0;
    e := fs.ReadEntryInfo(0x10, 0, 0, []);
    ghost var more := Faces(fs);
    assert Except(was, more, e);
    hide Except, FacesOf;
    StoredMore(fs.g.bytsPerClus, fs.v, old(fs.ent), fs.ent, old(fs.chain), fs.chain, dirs, at);
    ok, f := NewCluster(fs, dirs, at, e);
    if !ok {
      return;
    }
    ghost var mid := Faces(fs);
    ExceptTrans(was, more, mid, e, e);
    size := MakeDots(fs, dirs, at, e, f, parent, fs.g.bytsPerClus / 32);
    FreshDots(f, parent, size);
    hide DotsIn;
    ExceptTrans(was, mid, Faces(fs), e, e);
    SameEntries(fs, was, old(fs.ent));
    EntryReadable(fs.g.bytsPerClus, fs.v, fs.ent, fs.chain, fs.owner, e);
    StoredNew(fs.g.bytsPerClus, fs.v, fs.ent, fs.chain, dirs, at, e, Directory.Slots(fs, e));
  }

  /** The clusters suffice: one for a new directory, and those by which the chain `ch` of the parent has to grow. */
  ghost predicate Room(bpc: nat, fat: seq<nat>, ch: seq<nat>, attr: byte, off: nat, nm: seq<byte>)
    requires bpc > 0
  {
    var free := FreeCount(fat) - if attr == ATTR_DIRECTORY then 1 else 0;
    free >= 0 && |ch| + free > Quo(32 * off + 32 * EntCnt(|nm|), bpc)
  }

  /**
   The disk part of `ealloc`: the new name is in directory `d`, everything else is as before; `ok` is false when
   clusters run out.
   */
  method MakeName(fs: FileSystem, ghost dirs: map<nat, seq<Slot>>, ghost at: map<nat, nat>, p: nat, d: nat,
                  nm: seq<byte>, attr: byte, off: nat)
      returns (ok: bool, e: nat, f: nat, ghost dirs': map<nat, seq<Slot>>, ghost at': map<nat, nat>)
    requires Linked(fs, dirs, at) && d in at && p == at[d] && d < U32 && DirOk(dirs[d])
    requires NameOk(nm) && Searchable(nm) && Directory.Printable(nm) && Scan(dirs[d], 0, nm) == Miss(off) && off >= 2
    requires attr == ATTR_DIRECTORY || !IsDir(attr)
    modifies fs
    ensures ok <==> old(p < |fs.chain| && Room(fs.g.bytsPerClus, fs.v.fat, fs.chain[p], attr, off, nm))
    ensures ok ==> NameMade(dirs, dirs', d, nm, off, AllocInfo(attr, f)) && Linked(fs, dirs', at')
    ensures ok ==> Except(old(Faces(fs)), Faces(fs), p) && |old(fs.ent)| <= |fs.ent|
    ensures ok ==> SameButCursor(old(fs.ent), fs.ent[..|old(fs.ent)|], p)
    ensures ok ==> e == |old(fs.ent)| && |fs.ent| == e + 1 && at' == if attr == ATTR_DIRECTORY then at[f := e] else at
    ensures ok && attr != ATTR_DIRECTORY ==> fs.ent[e] == EntryOf(AllocAttr(attr) as nat, 0, 0)
  {
    hide FsInv, Scan, DirOk, Dotted, Directory.SlotsOf, Content, FreshDir, NameMade, Encode, Make, Except, FacesOf, Rep;
    LinkedSlots(fs, dirs, at, d);
    assert at.Keys == dirs.Keys && fs.g.bytsPerClus > 0;
    hide FileSystem.Valid, Stored, Quo, FreeCount, AllocInfo, SameButCursor, EntCnt, IsDir;
    ghost var was := Faces(fs);
    ghost var size, mid;
    dirs' := dirs;
    ok, e, f, size, mid, at' := NewEntryFor(fs, dirs, at, d, attr);
    if !ok {
      return;
    }
    InfoOk(attr, f);
    MissInRange(dirs[d], nm);
    ghost var short, pad;
    ghost var more := Faces(fs);
    ghost var ent1 := fs.ent;
    hide Linked;
    ok, short, pad := AddEntry(fs, mid, at', p, d, nm, AllocInfo(attr, f), off);
    if ok {
      ExceptTrans(was, more, Faces(fs), |was|, p);
      PrefixCursor(old(fs.ent), ent1, fs.ent, p);
      MadeFrom(dirs, mid, d, off, nm, short, attr, f, size, pad);
      dirs' := mid[d := Make(mid[d], off, Encode(nm, short, AllocInfo(attr, f))) + Blank(pad)];
    }
  }

  /** The name is made on the directories that have the new one, if it is one, already. */
  lemma MadeFrom(dirs: map<nat, seq<Slot>>, mid: map<nat, seq<Slot>>, d: nat, off: nat, nm: seq<byte>,
                 short: seq<byte>, attr: byte, f: nat, size: nat, pad: nat)
    requires d in dirs && d < U32 && DirOk(dirs[d]) && NameOk(nm) && Searchable(nm) && ShortOk(short) && size >= 2
    requires f < U32 && (attr == ATTR_DIRECTORY ==> f !in dirs) && (attr == ATTR_DIRECTORY || !IsDir(attr))
    requires Scan(dirs[d], 0, nm) == Miss(off)
    requires mid == if attr == ATTR_DIRECTORY then dirs[f := FreshDir(f, d, size)] else dirs
    ensures d in mid && AllocInfo(attr, f).Valid() && off <= |mid[d]|
    ensures var enc := Encode(nm, short, AllocInfo(attr, f));
      NameMade(dirs, mid[d := Make(mid[d], off, enc) + Blank(pad)], d, nm, off, AllocInfo(attr, f))
  {
    hide Scan, DirOk, FreshDir, NameMade, Encode, Make;
    MadeName(dirs, d, nm, short, attr, f, size, pad);
    assert MadeDirs(dirs, d, off, nm, short, attr, f, size, pad)
        == mid[d := Make(mid[d], off, Encode(nm, short, AllocInfo(attr, f))) + Blank(pad)];
  }

  /** What `ealloc` sets up for the new entry before it writes the name: for a directory its first cluster. */
  method NewEntryFor(fs: FileSystem, ghost dirs: map<nat, seq<Slot>>, ghost at: map<nat, nat>, d: nat, attr: byte)
      returns (ok: bool, e: nat, f: nat, ghost size: nat, ghost mid: map<nat, seq<Slot>>, ghost at': map<nat, nat>)
    requires Linked(fs, dirs, at) && d < U32 && d in at
    modifies fs
    ensures ok <==> attr == ATTR_DIRECTORY ==> FreeCount(old(fs.v).fat) > 0
    ensures ok ==> FreeCount(fs.v.fat) == FreeCount(old(fs.v).fat) - if attr == ATTR_DIRECTORY then 1 else 0
    ensures ok ==> f < U32 && size >= 2 && (attr == ATTR_DIRECTORY ==> f !in dirs)
    ensures ok ==> mid == if attr == ATTR_DIRECTORY then dirs[f := FreshDir(f, d, size)] else dirs
    ensures ok ==> at' == if attr == ATTR_DIRECTORY then at[f := e] else at
    ensures ok ==> Linked(fs, mid, at') && e == |old(fs.ent)| && |fs.ent| == e + 1
    ensures ok ==> old(fs.ent) <= fs.ent && old(fs.chain) <= fs.chain && Except(old(Faces(fs)), Faces(fs), e)
    ensures ok && attr != ATTR_DIRECTORY ==> fs.ent[e] == EntryOf(AllocAttr(attr) as nat, 0, 0)
  {
    hide FsInv, Stored, FreshDir, Except, FacesOf, Rep, DotsIn, FreeCount;
    e, f, ok, size, mid, at' := |fs.ent|, 0, true, 2, dirs, at;
    if attr == ATTR_DIRECTORY {
      ok, e, f, size := MakeDir(fs, dirs, at, d);
      if ok {
        mid, at' := dirs[f := FreshDir(f, d, size)], at[f := e];
      }
    } else {
      e := NewFile(fs, dirs, at, AllocAttr(attr) as nat);
    }
  }

  /** An entry of the file layer for a file without clusters. */
  method NewFile(fs: FileSystem, ghost dirs: map<nat, seq<Slot>>, ghost at: map<nat, nat>, attribute: nat)
      returns (e: nat)
    requires Linked(fs, dirs, at)
    modifies fs
    ensures Linked(fs, dirs, at) && Except(old(Faces(fs)), Faces(fs), e)
    ensures e == |old(fs.ent)| && fs.ent == old(fs.ent) + [EntryOf(attribute, 0, 0)]
    ensures fs.v == old(fs.v) && fs.chain == old(fs.chain) + [[]]
  {
    hide FsInv, Directory.SlotsOf, Content;
    e := fs.ReadEntryInfo(attribute, 0, 0, []);
    StoredMore(fs.g.bytsPerClus, fs.v, old(fs.ent), fs.ent, old(fs.chain), fs.chain, dirs, at);
  }

  /** `emake` on the volume. */
  method AddEntry(fs: FileSystem, ghost dirs: map<nat, seq<Slot>>, ghost at: map<nat, nat>, p: nat, ghost d: nat,
                  nm: seq<byte>, info: Info, off: nat)
      returns (ok: bool, ghost short: seq<byte>, ghost pad: nat)
    requires Linked(fs, dirs, at) && d in at && p == at[d] && NameOk(nm) && Directory.Printable(nm) && info.Valid()
      && 2 <= off <= |dirs[d]|
    modifies fs
    ensures ShortOk(short)
    ensures ok <==> |old(fs.chain)[p]| + FreeCount(old(fs.v).fat)
                    > Quo(32 * off + 32 * EntCnt(|nm|), fs.g.bytsPerClus)
    ensures ok ==> Linked(fs, dirs[d := Make(dirs[d], off, Encode(nm, short, info)) + Blank(pad)], at)
    ensures ok ==> SameButCursor(old(fs.ent), fs.ent, p) && Except(old(Faces(fs)), Faces(fs), p)
  {
    hide FsInv, Directory.SlotsOf, Content, Encode, Make, Stored, FacesOf, Except, Quo, FreeCount;
    LinkedSlots(fs, dirs, at, d);
    assert 32 * off / 32 == off;
    ok, short, pad := Directory.EMake(fs, p, nm, info, 32 * off);
    if ok {
      StoredWrite(fs.g.bytsPerClus, old(fs.v), old(fs.ent), old(fs.chain), old(fs.owner), fs.v, fs.ent, fs.chain,
                  fs.owner, dirs, at, d);
    }
  }

  lemma InfoOk(attr: byte, f: nat)
    requires f < U32 && (attr == ATTR_DIRECTORY || !IsDir(attr))
    ensures AllocInfo(attr, f).Valid()
  {
  }

  lemma MissInRange(slots: seq<Slot>, nm: seq<byte>)
    requires DirOk(slots) && NameOk(nm) && Searchable(nm) && Scan(slots, 0, nm).Miss?
    ensures Scan(slots, 0, nm).off <= |slots|
  {
    hide Scan, DirOk;
    MakeTheorem(slots, nm, seq(11, _ => 0x41), Info(0x20, 0, 0), 0);
  }

  /**
   `ealloc` on cache and volume together: after the lookup missed and slot `v` was taken, the name is made on the
   volume and the slot filled; both stay together.
   */
  method Allocate(fs: FileSystem, ghost s: S, ghost m: S, ghost at: map<nat, nat>, p: nat, ghost dp: nat, ghost v: nat,
                  d: nat, nm: seq<byte>, attr: byte, off: nat)
      returns (ok: bool, e: nat, f: nat, ghost t: S, ghost at': map<nat, nat>)
    requires Inv(s) && Inv(m) && TakeStep(s, m, v) && EntryPath.Live(s, dp) && s.ent[dp].valid == 1
      && IsDir(s.ent[dp].attr)
    requires Linked(fs, s.dirs, at) && d == s.ent[dp].firstClus && d in at && p == at[d] && d < U32
    requires NameOk(nm) && Searchable(nm) && Directory.Printable(nm) && Scan(s.dirs[d], 0, nm) == Miss(off) && off >= 2
    requires attr == ATTR_DIRECTORY || !IsDir(attr)
    modifies fs
    ensures ok <==> old(p < |fs.chain| && Room(fs.g.bytsPerClus, fs.v.fat, fs.chain[p], attr, off, nm))
    ensures ok ==> Inv(t) && Gained(s, t, v, EntryPath.PathOf(s, dp) + [nm]) && v < |t.ent| && Match(t.ent[v], dp, nm)
    ensures ok ==> Linked(fs, t.dirs, at') && Except(old(Faces(fs)), Faces(fs), p) && |old(fs.ent)| <= |fs.ent|
    ensures ok ==> SameButCursor(old(fs.ent), fs.ent[..|old(fs.ent)|], p)
    ensures ok ==> NameMade(s.dirs, t.dirs, d, nm, off, AllocInfo(attr, f)) && v < |m.ent| && dp < |m.ent| == |m.rank|
    ensures ok ==> t == Filled(m.(dirs := t.dirs), v, dp, NewEntry(m.ent[v], nm, off, AllocInfo(attr, f)))
    ensures ok ==> e == |old(fs.ent)| && |fs.ent| == e + 1 && at' == if attr == ATTR_DIRECTORY then at[f := e] else at
    ensures ok && attr != ATTR_DIRECTORY ==> fs.ent[e] == EntryOf(AllocAttr(attr) as nat, 0, 0)
  {
    DirThere(s, dp);
    assert fs.Valid();
    hide Scan, DirOk, Dotted, Stored, FsInv, Rep, Except, Inv, TakeStep, NameMade, Gained, Match, EntryPath.Live,
      EntryPath.PathOf;
    ghost var dirs';
    t := m;
    ok, e, f, dirs', at' := MakeName(fs, s.dirs, at, p, d, nm, attr, off);
    if ok {
      t := AllocState(s, m, v, dp, nm, off, AllocInfo(attr, f), dirs');
    }
  }

  /** What `ealloc` assigns to the slot it took. */
  function NewEntry(e: Entry, nm: seq<byte>, off: nat, info: Info): Entry {
    e.(name := nm, attr := info.attr, firstClus := info.firstClus, fileSize := info.fileSize, off := off)
  }

  /** The cache after slot `v` was filled with the name just made. */
  lemma AllocState(s: S, m: S, v: nat, dp: nat, nm: seq<byte>, off: nat, info: Info, dirs': map<nat, seq<Slot>>)
      returns (t: S)
    requires Inv(s) && Inv(m) && TakeStep(s, m, v) && EntryPath.Live(s, dp) && s.ent[dp].valid == 1
      && IsDir(s.ent[dp].attr)
    requires NameMade(s.dirs, dirs', s.ent[dp].firstClus, nm, off, info)
    ensures Inv(t) && t.dirs == dirs' && Gained(s, t, v, EntryPath.PathOf(s, dp) + [nm]) && v < t.n && v < |t.ent|
      && Match(t.ent[v], dp, nm)
    ensures v < |m.ent| && dp < |m.ent| == |m.rank|
    ensures t == Filled(m.(dirs := dirs'), v, dp, NewEntry(m.ent[v], nm, off, info))
  {
    hide Scan, Refs, Lru, Parents, DiskInv, NameMade, Gained, EntryPath.PathOf, TakeStep;
    TakenSame(s, m, v, dp);
    var e := NewEntry(m.ent[v], nm, off, info);
    AllocValid(s.dirs, dirs', s.ent[dp].firstClus, nm, off, info);
    MadeInv(s, m, v, dp, nm, off, info, dirs', e);
    t := Filled(m.(dirs := dirs'), v, dp, e);
  }

  lemma AllocValid(dirs: map<nat, seq<Slot>>, dirs': map<nat, seq<Slot>>, d: nat, nm: seq<byte>, off: nat, info: Info)
    requires NameMade(dirs, dirs', d, nm, off, info)
    ensures info.Valid()
  {
    hide Scan;
    ScanSound(dirs'[d], nm);
  }
}
