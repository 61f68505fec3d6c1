/**
 The whole volume: every directory, every named file, open or not, and every removed file that is still open has an
 entry with a well-formed chain of its own, and nothing else has one.  Mounting a consistent volume establishes
 this, each operation of kernel/fs/fat32.c:349-716 that touches the disk keeps it, and a volume left with no
 update pending is consistent again.
 */
module Volume {
  import opened Bytes
  import opened DirCodec
  import opened DirModel
  import opened Fat32Layout
  import opened Fat32Chain
  import opened Fat32
  import opened EntryState
  import opened EntryDisk
  import opened EntryCreate
  import opened EntryCache
  import opened EntryOps
  import opened Mount

  // ---------- Which entry is which ----------

  /** A name in a directory. */
  datatype Key = Key(dir: nat, name: seq<byte>)

  datatype Role = Spare | DirOf(d: nat) | FileOf(k: Key) | GoneOf(x: nat)

  /** Directories by first cluster, files by name, removed files by cache slot, and what each entry is. */
  datatype Index = Index(at: map<nat, nat>, files: map<Key, nat>, gone: map<nat, nat>, role: seq<Role>)

  predicate Plays(ix: Index, e: nat, r: Role) { e < |ix.role| && ix.role[e] == r }

  predicate Known(ix: Index, e: nat)
    requires e < |ix.role|
  {
    match ix.role[e]
    case Spare => true
    case DirOf(d) => d in ix.at && ix.at[d] == e
    case FileOf(k) => k in ix.files && ix.files[k] == e
    case GoneOf(x) => x in ix.gone && ix.gone[x] == e
  }

  ghost predicate Indexed(ix: Index) {
    && (forall d {:trigger ix.at[d]} :: d in ix.at ==> Plays(ix, ix.at[d], DirOf(d)))
    && (forall k {:trigger ix.files[k]} :: k in ix.files ==> Plays(ix, ix.files[k], FileOf(k)))
    && (forall x {:trigger ix.gone[x]} :: x in ix.gone ==> Plays(ix, ix.gone[x], GoneOf(x)))
    && (forall e {:trigger ix.role[e]} :: 0 <= e < |ix.role| ==> Known(ix, e))
  }

  // ---------- Names and cached entries ----------

  /** The name stands for a file on the disk. */
  ghost predicate IsFile(dirs: map<nat, seq<Slot>>, k: Key) {
    && k.dir in dirs && Searchable(k.name) && Scan(dirs[k.dir], 0, k.name).Hit?
    && !IsDir(Scan(dirs[k.dir], 0, k.name).info.attr)
  }

  predicate Says(d: Dirent, i: Info) {
    d.attribute == i.attr as nat && d.firstClus == i.firstClus && d.fileSize == i.fileSize
  }

  /** The directory slot says what the entry of the file layer says. */
  ghost predicate Scanned(d: Dirent, dirs: map<nat, seq<Slot>>, k: Key) {
    IsFile(dirs, k) && Says(d, Scan(dirs[k.dir], 0, k.name).info)
  }

  predicate CachedFile(s: S, x: nat) { x < s.n < |s.ent| && s.ent[x].valid == 1 && !IsDir(s.ent[x].attr) }

  predicate GoneFile(s: S, x: nat) { x < s.n < |s.ent| && s.ent[x].valid == -1 && !IsDir(s.ent[x].attr) }

  /** The name that a cached entry stands for. */
  function KeyOf(s: S, x: nat): Key
    requires x < |s.ent|
  {
    Key(if s.ent[x].parent < |s.ent| then s.ent[s.ent[x].parent].firstClus else 0, s.ent[x].name)
  }

  /** The cached file for this name has a change that its directory slot does not show yet. */
  predicate Pending(s: S, k: Key, x: nat) { CachedFile(s, x) && s.ent[x].dirty && KeyOf(s, x) == k }

  /** A removed directory, until its clusters are freed, has no names in it, no name and no other user. */
  ghost predicate Departed(s: S, x: nat)
    requires x < s.n < |s.ent|
  {
    var f := s.ent[x].firstClus;
    s.ent[x].valid == -1 && IsDir(s.ent[x].attr) && f != 0 ==>
      && f in s.dirs && NoNames(s.dirs[f])
      && (forall d, n {:trigger Refer(s.dirs, d, n, f)} :: !Refer(s.dirs, d, n, f))
      && (forall c {:trigger HasDir(s.ent[c])} ::
          0 <= c <= s.n && c != x && HasDir(s.ent[c]) ==> s.ent[c].firstClus != f)
  }

  // ---------- The relation ----------

  /** Exactly the files on the disk are in the index. */
  ghost predicate Listed(dirs: map<nat, seq<Slot>>, files: map<Key, nat>) {
    forall k {:trigger k in files} {:trigger IsFile(dirs, k)} :: k in files <==> IsFile(dirs, k)
  }

  /** The entry of a file is what its slot says, unless the cache has a newer version. */
  ghost predicate Shown(s: S, ent: seq<Dirent>, files: map<Key, nat>) {
    forall k {:trigger files[k]} :: k in files && files[k] < |ent| ==>
      Scanned(ent[files[k]], s.dirs, k) || exists x: nat :: Pending(s, k, x)
  }

  /** The entry of a cached file is what the cache says. */
  ghost predicate Mirrored(s: S, ent: seq<Dirent>, files: map<Key, nat>) {
    forall x: nat {:trigger CachedFile(s, x)} :: CachedFile(s, x) ==>
      && KeyOf(s, x) in files && files[KeyOf(s, x)] < |ent|
      && SameFile(ent[files[KeyOf(s, x)]], s.ent[x])
  }

  ghost predicate Files(s: S, ent: seq<Dirent>, ix: Index) {
    Listed(s.dirs, ix.files) && Shown(s, ent, ix.files) && Mirrored(s, ent, ix.files)
  }

  ghost predicate Goners(s: S, ent: seq<Dirent>, ix: Index) {
    && (forall x: nat {:trigger GoneFile(s, x)} :: GoneFile(s, x) && s.ent[x].ref > 0 ==> x in ix.gone)
    && (forall x {:trigger ix.gone[x]} :: x in ix.gone ==>
          GoneFile(s, x) && s.ent[x].ref > 0 && ix.gone[x] < |ent| && SameFile(ent[ix.gone[x]], s.ent[x]))
  }

  ghost predicate Spares(ent: seq<Dirent>, ix: Index) {
    forall e {:trigger ix.role[e]} :: 0 <= e < |ix.role| && e < |ent| && ix.role[e] == Spare ==> ent[e].firstClus == 0
  }

  ghost predicate Filed(s: S, ent: seq<Dirent>, ix: Index) {
    && Shape(s) && |ix.role| == |ent| && Indexed(ix) && Files(s, ent, ix) && Goners(s, ent, ix) && Spares(ent, ix)
    && forall x: nat {:trigger Departed(s, x)} :: x < s.n ==> Departed(s, x)
  }

  /** Cache and volume belong together. */
  ghost predicate Whole(fs: FileSystem, s: S, ix: Index)
    reads fs
  {
    Inv(s) && Linked(fs, s.dirs, ix.at) && Filed(s, fs.ent, ix)
  }

  /** The entry of a cached or removed file. */
  function EntryOfFile(s: S, ix: Index, x: nat): nat
    requires x < |s.ent| && (if s.ent[x].valid == 1 then KeyOf(s, x) in ix.files else x in ix.gone)
  {
    if s.ent[x].valid == 1 then ix.files[KeyOf(s, x)] else ix.gone[x]
  }

  // ---------- Cached files and their names ----------

  /** What a cached file says about the disk. */
  lemma KeyThere(s: S, x: nat)
    requires Inv(s) && CachedFile(s, x)
    ensures s.ent[x].parent <= s.n && s.ent[s.ent[x].parent].valid == 1 && IsDir(s.ent[s.ent[x].parent].attr)
    ensures IsFile(s.dirs, KeyOf(s, x)) && s.ent[x].firstClus < U32 && s.ent[x].fileSize < U32
    ensures var i := Scan(s.dirs[KeyOf(s, x).dir], 0, s.ent[x].name).info;
      i.attr == s.ent[x].attr && (!s.ent[x].dirty ==> i == Info(s.ent[x].attr, s.ent[x].firstClus, s.ent[x].fileSize))
  {
    hide Scan, Refs, Lru, Tree, DirIds;
    assert OnDisk(s.ent, s.dirs, x);
  }

  /** The parent of a cached entry is another cached entry, and a directory. */
  lemma ParentDir(s: S, x: nat)
    requires Inv(s) && x < s.n && s.ent[x].valid == 1
    ensures s.ent[x].parent <= s.n && s.ent[x].parent != x && s.ent[s.ent[x].parent].valid == 1
    ensures HasDir(s.ent[s.ent[x].parent])
  {
    hide Scan, Refs, Lru, Tree, DirIds;
    assert OnDisk(s.ent, s.dirs, x);
  }

  /** No two cached files stand for the same name. */
  lemma KeyOnce(s: S, x: nat, x': nat)
    requires Inv(s) && CachedFile(s, x) && CachedFile(s, x') && KeyOf(s, x) == KeyOf(s, x')
    ensures x == x'
  {
    KeyThere(s, x);
    KeyThere(s, x');
    hide Scan, Refs, Lru, Tree, OnDisk, IsFile;
    var p, p' := s.ent[x].parent, s.ent[x'].parent;
    assert HasDir(s.ent[p]) && HasDir(s.ent[p']);
    assert p == p';
    assert x < x' ==> Apart(s.ent[x], s.ent[x']);
    assert x' < x ==> Apart(s.ent[x'], s.ent[x]);
  }

  predicate SameFields(d: Dirent, d': Dirent) {
    d'.attribute == d.attribute && d'.firstClus == d.firstClus && d'.fileSize == d.fileSize
  }

  /** Entries differ in cursors and marks only. */
  ghost predicate OnlyCursors(ent: seq<Dirent>, ent': seq<Dirent>) {
    |ent'| == |ent| && forall e {:trigger ent'[e]} :: 0 <= e < |ent| ==> SameFields(ent[e], ent'[e])
  }

  lemma CursorsOnly(ent: seq<Dirent>, ent': seq<Dirent>, p: nat)
    requires SameButCursor(ent, ent', p)
    ensures OnlyCursors(ent, ent')
  {
  }

  lemma FiledCursors(s: S, ent: seq<Dirent>, ent': seq<Dirent>, ix: Index)
    requires Filed(s, ent, ix) && OnlyCursors(ent, ent')
    ensures Filed(s, ent', ix)
  {
    hide Scan, Departed, IsFile, Indexed;
    forall k | k in ix.files && ix.files[k] < |ent'|
      ensures Scanned(ent'[ix.files[k]], s.dirs, k) || exists x: nat :: Pending(s, k, x)
    {
      assert SameFields(ent[ix.files[k]], ent'[ix.files[k]]);
    }
    forall x: nat | CachedFile(s, x)
      ensures SameFile(ent'[ix.files[KeyOf(s, x)]], s.ent[x])
    {
      assert SameFields(ent[ix.files[KeyOf(s, x)]], ent'[ix.files[KeyOf(s, x)]]);
    }
    forall x: nat | x in ix.gone
      ensures SameFile(ent'[ix.gone[x]], s.ent[x])
    {
      assert SameFields(ent[ix.gone[x]], ent'[ix.gone[x]]);
    }
  }

  // ---------- Steps of the cache alone ----------

  /** What may happen to a slot without touching the disk: references, recycling, filling from a scan. */
  predicate QuietEntry(e: Entry, e': Entry) {
    || (e' == e.(ref := e'.ref) && (e.valid == -1 ==> (e'.ref > 0 <==> e.ref > 0)))
    || (e'.valid == 0 && e.ref == 0)
    || (e.valid == 0 && e'.valid == 1 && !e'.dirty)
  }

  ghost predicate Quiet(s: S, t: S) {
    && Shape(s) && Shape(t) && t.n == s.n && t.dirs == s.dirs
    && forall c {:trigger t.ent[c]} :: 0 <= c <= s.n ==> QuietEntry(s.ent[c], t.ent[c])
  }

  /** A cached file that was there before is the same file. */
  lemma QuietKey(s: S, t: S, x: nat)
    requires Inv(s) && Inv(t) && Quiet(s, t) && CachedFile(s, x) && CachedFile(t, x)
      && t.ent[x].parent == s.ent[x].parent
      && t.ent[x].name == s.ent[x].name
    ensures KeyOf(t, x) == KeyOf(s, x)
  {
    KeyThere(s, x);
    KeyThere(t, x);
    hide Scan, Inv, IsFile;
    assert QuietEntry(s.ent[s.ent[x].parent], t.ent[s.ent[x].parent]);
  }

  lemma QuietPending(s: S, t: S, k: Key, x: nat)
    requires Inv(s) && Inv(t) && Quiet(s, t) && Pending(s, k, x)
    ensures Pending(t, k, x)
  {
    hide Scan, Refs, Lru, Tree, OnDisk, DirIds, Parents;
    assert QuietEntry(s.ent[x], t.ent[x]) && Clean(s.ent[x]);
    hide Inv;
    QuietKey(s, t, x);
  }

  lemma QuietCached(s: S, t: S, ent: seq<Dirent>, ix: Index, x: nat)
    requires Inv(s) && Inv(t) && Quiet(s, t) && Filed(s, ent, ix) && CachedFile(t, x)
    ensures KeyOf(t, x) in ix.files && ix.files[KeyOf(t, x)] < |ent|
    ensures SameFile(ent[ix.files[KeyOf(t, x)]], t.ent[x])
  {
    KeyThere(t, x);
    hide Scan, Inv, Departed, Goners, Spares;
    var k := KeyOf(t, x);
    assert IsFile(s.dirs, k);
    assert Plays(ix, ix.files[k], FileOf(k));
    assert QuietEntry(s.ent[x], t.ent[x]);
    if s.ent[x].valid == 0 {
      if x': nat :| Pending(s, k, x') {
        QuietPending(s, t, k, x');
        KeyOnce(t, x, x');
      }
    } else {
      assert CachedFile(s, x);
      QuietKey(s, t, x);
    }
  }

  lemma QuietDeparted(s: S, t: S, x: nat)
    requires Inv(s) && Inv(t) && Quiet(s, t) && x < s.n && Departed(s, x)
    ensures Departed(t, x)
  {
    hide Scan, Refs, Lru, Parents, Tree, NoNames;
    var f := t.ent[x].firstClus;
    assert QuietEntry(s.ent[x], t.ent[x]);
    if t.ent[x].valid == -1 && IsDir(t.ent[x].attr) && f != 0 {
      forall c | 0 <= c <= t.n && c != x && HasDir(t.ent[c])
        ensures t.ent[c].firstClus != f
      {
        assert QuietEntry(s.ent[c], t.ent[c]);
        if s.ent[c].valid == 0 {
          assert OnDisk(t.ent, t.dirs, c);
          assert Refer(t.dirs, t.ent[t.ent[c].parent].firstClus, t.ent[c].name, t.ent[c].firstClus);
        } else {
          assert HasDir(s.ent[c]);
        }
      }
    }
  }

  /** Steps of the cache alone keep everything. */
  lemma QuietFiled(s: S, t: S, ent: seq<Dirent>, ix: Index)
    requires Inv(s) && Inv(t) && Quiet(s, t) && Filed(s, ent, ix)
    ensures Filed(t, ent, ix)
  {
    hide Scan, Inv, Departed, IsFile, Indexed;
    forall k | k in ix.files && ix.files[k] < |ent|
      ensures Scanned(ent[ix.files[k]], t.dirs, k) || exists x: nat :: Pending(t, k, x)
    {
      if x: nat :| Pending(s, k, x) {
        QuietPending(s, t, k, x);
      }
    }
    forall x: nat | CachedFile(t, x)
      ensures KeyOf(t, x) in ix.files && ix.files[KeyOf(t, x)] < |ent|
      ensures SameFile(ent[ix.files[KeyOf(t, x)]], t.ent[x])
    {
      QuietCached(s, t, ent, ix, x);
    }
    forall x: nat | GoneFile(t, x)
      ensures GoneFile(s, x) && (t.ent[x].ref > 0 ==> s.ent[x].ref > 0)
    {
      assert QuietEntry(s.ent[x], t.ent[x]);
    }
    forall x: nat | x in ix.gone
      ensures GoneFile(t, x) && t.ent[x].ref > 0 && SameFile(ent[ix.gone[x]], t.ent[x])
    {
      assert QuietEntry(s.ent[x], t.ent[x]);
    }
    forall x: nat | x < t.n
      ensures Departed(t, x)
    {
      assert Departed(s, x);
      QuietDeparted(s, t, x);
    }
  }

  // ---------- ewrite ----------

  /** The entry of a file is its own. */
  lemma OwnEntry(s: S, ent: seq<Dirent>, ix: Index, x: nat)
    requires Inv(s) && Filed(s, ent, ix) && x < s.n && s.ent[x].ref > 0 && s.ent[x].valid in {1, -1}
      && !IsDir(s.ent[x].attr)
    ensures if s.ent[x].valid == 1 then KeyOf(s, x) in ix.files else x in ix.gone
    ensures EntryOfFile(s, ix, x) < |ent| && SameFile(ent[EntryOfFile(s, ix, x)], s.ent[x])
    ensures Plays(ix, EntryOfFile(s, ix, x), if s.ent[x].valid == 1 then FileOf(KeyOf(s, x)) else GoneOf(x))
    ensures forall d {:trigger ix.at[d]} :: d in ix.at ==> ix.at[d] != EntryOfFile(s, ix, x)
  {
    hide Scan, Inv, Departed, IsFile, Known;
    assert s.ent[x].valid == 1 ==> CachedFile(s, x);
    assert s.ent[x].valid == -1 ==> GoneFile(s, x);
  }

  /** Writing to a file gives no file another name. */
  lemma SyncedKey(s: S, x: nat, d: Dirent, x': nat)
    requires Inv(s) && x < s.n && !IsDir(s.ent[x].attr) && CachedFile(s, x')
    ensures KeyOf(Synced(s, x, d), x') == KeyOf(s, x')
  {
    KeyThere(s, x');
  }

  lemma FiledSynced(s: S, ent: seq<Dirent>, ix: Index, x: nat, d: Dirent)
    requires Inv(s) && Filed(s, ent, ix) && x < s.n && s.ent[x].ref > 0 && s.ent[x].valid in {1, -1}
      && !IsDir(s.ent[x].attr)
    requires d.attribute == s.ent[x].attr as nat
    requires if s.ent[x].valid == 1 then KeyOf(s, x) in ix.files else x in ix.gone
    requires EntryOfFile(s, ix, x) < |ent|
    ensures Filed(Synced(s, x, d), ent[EntryOfFile(s, ix, x) := d], ix)
  {
    hide Scan, Inv, IsFile, Files, NoNames, Departed, SameFile, Goners, Indexed, Known;
    OwnEntry(s, ent, ix, x);
    var t, e := Synced(s, x, d), EntryOfFile(s, ix, x);
    var ent' := ent[e := d];
    SyncedFiles(s, ent, ix, x, d, e, t, ent');
    SyncedGoners(s, ent, ix, x, d, e, t, ent');
    forall x': nat | x' < t.n
      ensures Departed(t, x')
    {
      assert Departed(s, x');
      SyncedDeparted(s, x, d, x');
    }
    assert Plays(ix, e, ix.role[e]) && ix.role[e] != Spare;
  }

  lemma SyncedDeparted(s: S, x: nat, d: Dirent, y: nat)
    requires Shape(s) && x < s.n && !IsDir(s.ent[x].attr) && y < s.n && Departed(s, y)
    ensures Departed(Synced(s, x, d), y)
  {
    hide Scan, Refer, NoNames;
    var t := Synced(s, x, d);
    forall c | 0 <= c <= t.n && HasDir(t.ent[c])
      ensures HasDir(s.ent[c]) && t.ent[c].firstClus == s.ent[c].firstClus
    {
    }
  }

  lemma SyncedGoners(s: S, ent: seq<Dirent>, ix: Index, x: nat, d: Dirent, e: nat, t: S, ent': seq<Dirent>)
    requires Shape(s) && Indexed(ix) && Goners(s, ent, ix) && |ix.role| == |ent| && x < s.n && s.ent[x].valid in {1, -1}
    requires d.attribute == s.ent[x].attr as nat && t == Synced(s, x, d) && e < |ent| && ent' == ent[e := d]
    requires Plays(ix, e, if s.ent[x].valid == 1 then FileOf(KeyOf(s, x)) else GoneOf(x))
    ensures Goners(t, ent', ix)
  {
    forall y: nat | y in ix.gone
      ensures GoneFile(t, y) && t.ent[y].ref > 0 && SameFile(ent'[ix.gone[y]], t.ent[y])
    {
      assert GoneFile(s, y) && Plays(ix, ix.gone[y], GoneOf(y)) && Known(ix, e);
    }
    forall y: nat | GoneFile(t, y) && t.ent[y].ref > 0
      ensures y in ix.gone
    {
      assert GoneFile(s, y);
    }
  }

  lemma SyncedFiles(s: S, ent: seq<Dirent>, ix: Index, x: nat, d: Dirent, e: nat, t: S, ent': seq<Dirent>)
    requires Inv(s) && Filed(s, ent, ix) && x < s.n && s.ent[x].valid in {1, -1} && !IsDir(s.ent[x].attr)
    requires d.attribute == s.ent[x].attr as nat && t == Synced(s, x, d) && e < |ent| && ent' == ent[e := d]
    requires SameFile(ent[e], s.ent[x])
    requires Plays(ix, e, if s.ent[x].valid == 1 then FileOf(KeyOf(s, x)) else GoneOf(x))
    ensures Files(t, ent', ix)
  {
    hide Scan, Inv, Departed, IsFile, Goners, Spares;
    forall x': nat | CachedFile(s, x')
      ensures CachedFile(t, x') && KeyOf(t, x') == KeyOf(s, x')
    {
      SyncedKey(s, x, d, x');
    }
    forall k | k in ix.files && ix.files[k] < |ent'|
      ensures Scanned(ent'[ix.files[k]], t.dirs, k) || exists y: nat :: Pending(t, k, y)
    {
      assert Plays(ix, ix.files[k], FileOf(k));
      if y: nat :| Pending(s, k, y) {
        assert Pending(t, k, y);
      } else if ix.files[k] == e && !SameFields(ent[e], d) {
        assert Pending(t, k, x);
      }
    }
    forall y: nat | CachedFile(t, y)
      ensures KeyOf(t, y) in ix.files && ix.files[KeyOf(t, y)] < |ent'|
      ensures SameFile(ent'[ix.files[KeyOf(t, y)]], t.ent[y])
    {
      assert CachedFile(s, y);
      var k := KeyOf(s, y);
      assert Plays(ix, ix.files[k], FileOf(k)) && Known(ix, e);
      if ix.files[k] == e {
        KeyOnce(s, x, y);
      }
    }
  }

  /** Marking a cached entry asks for nothing that is not allowed. */
  lemma FiledMarked(s: S, ent: seq<Dirent>, ix: Index, x: nat)
    requires Filed(s, ent, ix) && x < s.n
    ensures Filed(s.(ent := s.ent[x := s.ent[x].(dirty := true)]), ent, ix)
  {
    hide Scan, IsFile, Indexed, Refer, NoNames;
    var t := s.(ent := s.ent[x := s.ent[x].(dirty := true)]);
    forall y: nat
      ensures CachedFile(t, y) <==> CachedFile(s, y)
      ensures GoneFile(t, y) <==> GoneFile(s, y)
      ensures y < |s.ent| ==> KeyOf(t, y) == KeyOf(s, y)
    {
    }
    forall k | k in ix.files && ix.files[k] < |ent|
      ensures Scanned(ent[ix.files[k]], t.dirs, k) || exists y: nat :: Pending(t, k, y)
    {
      if y: nat :| Pending(s, k, y) {
        assert Pending(t, k, y);
      }
    }
    forall y: nat | y < t.n
      ensures Departed(t, y)
    {
      assert Departed(s, y);
      MarkedDeparted(s, x, y);
    }
  }

  lemma MarkedDeparted(s: S, x: nat, y: nat)
    requires Shape(s) && x < s.n && y < s.n && Departed(s, y)
    ensures Departed(s.(ent := s.ent[x := s.ent[x].(dirty := true)]), y)
  {
    hide Refer, NoNames;
    var t := s.(ent := s.ent[x := s.ent[x].(dirty := true)]);
    forall c | 0 <= c <= t.n && HasDir(t.ent[c])
      ensures HasDir(s.ent[c]) && t.ent[c].firstClus == s.ent[c].firstClus
    {
    }
  }

  // ---------- eupdate ----------

  /** Writing an entry back makes no name and takes none. */
  lemma WrittenNames(s: S, t: S, x: nat, k: Key)
    requires Inv(s) && CachedFile(s, x) && s.ent[x].dirty && WrittenBack(s, t, x)
    ensures IsFile(t.dirs, k) <==> IsFile(s.dirs, k)
    ensures k != KeyOf(s, x) && IsFile(s.dirs, k) ==>
      Scan(t.dirs[k.dir], 0, k.name).info == Scan(s.dirs[k.dir], 0, k.name).info
    ensures KeyOf(s, x).dir in t.dirs && s.ent[x].name != []
    ensures Scan(t.dirs[KeyOf(s, x).dir], 0, s.ent[x].name).Hit?
    ensures Scan(t.dirs[KeyOf(s, x).dir], 0, s.ent[x].name).info
         == Info(s.ent[x].attr, s.ent[x].firstClus, s.ent[x].fileSize)
  {
    KeyThere(s, x);
    hide Scan, Inv, DirOk, Dotted;
    var key := KeyOf(s, x);
    if k.dir == key.dir && k.name != key.name && Searchable(k.name) {
      assert SameHit(Scan(t.dirs[key.dir], 0, k.name), Scan(s.dirs[key.dir], 0, k.name));
    }
  }

  lemma FiledWritten(s: S, t: S, ent: seq<Dirent>, ix: Index, x: nat)
    requires Inv(s) && Inv(t) && Filed(s, ent, ix) && CachedFile(s, x) && s.ent[x].dirty && WrittenBack(s, t, x)
    ensures Filed(t, ent, ix)
  {
    hide Scan, Inv, IsFile, Files, Indexed, Rewrites, WrittenBack, Departed;
    WrittenFields(s, t, x);
    WrittenFiles(s, t, ent, ix, x);
    forall y: nat | GoneFile(t, y)
      ensures GoneFile(s, y) && t.ent[y] == s.ent[y]
    {
    }
    forall y: nat | y in ix.gone
      ensures GoneFile(t, y) && t.ent[y] == s.ent[y]
    {
      assert GoneFile(s, y);
    }
    forall y: nat | y < t.n
      ensures Departed(t, y)
    {
      assert Departed(s, y);
      WrittenDeparted(s, t, x, y);
    }
  }

  lemma WrittenFields(s: S, t: S, x: nat)
    requires CachedFile(s, x) && s.ent[x].dirty && WrittenBack(s, t, x)
    ensures Shape(s) && t.ent == s.ent[x := s.ent[x].(dirty := false)] && t.n == s.n && Shape(t)
  {
    hide Scan, Rewrites;
  }

  lemma WrittenFiles(s: S, t: S, ent: seq<Dirent>, ix: Index, x: nat)
    requires Inv(s) && Filed(s, ent, ix) && CachedFile(s, x) && s.ent[x].dirty && WrittenBack(s, t, x)
    requires Shape(t) && t.ent == s.ent[x := s.ent[x].(dirty := false)] && t.n == s.n
    ensures Files(t, ent, ix)
  {
    hide Scan, Inv, Departed, Goners, Spares, Known, IsFile, WrittenBack;
    var key := KeyOf(s, x);
    forall y: nat | CachedFile(t, y)
      ensures CachedFile(s, y) && KeyOf(t, y) == KeyOf(s, y) && SameFile(ent[ix.files[KeyOf(s, y)]], t.ent[y])
    {
      assert CachedFile(s, y);
    }
    forall k
      ensures k in ix.files <==> IsFile(t.dirs, k)
    {
      WrittenNames(s, t, x, k);
    }
    forall k | k in ix.files && ix.files[k] < |ent|
      ensures Scanned(ent[ix.files[k]], t.dirs, k) || exists y: nat :: Pending(t, k, y)
    {
      WrittenNames(s, t, x, k);
      if k != key {
        if y: nat :| Pending(s, k, y) {
          assert Pending(t, k, y);
        }
      }
    }
  }

  lemma WrittenRefer(s: S, t: S, x: nat, d: nat, n: seq<byte>, f: nat)
    requires Inv(s) && CachedFile(s, x) && s.ent[x].dirty && WrittenBack(s, t, x) && Refer(t.dirs, d, n, f)
    ensures Refer(s.dirs, d, n, f)
  {
    KeyThere(s, x);
    hide Scan, Inv, DirOk, Dotted;
    if d == KeyOf(s, x).dir && n != s.ent[x].name {
      assert SameHit(Scan(t.dirs[d], 0, n), Scan(s.dirs[d], 0, n));
    }
  }

  lemma WrittenDeparted(s: S, t: S, x: nat, y: nat)
    requires Inv(s) && CachedFile(s, x) && s.ent[x].dirty && WrittenBack(s, t, x) && y < s.n && Departed(s, y)
    requires t.ent == s.ent[x := s.ent[x].(dirty := false)] && t.n == s.n
    ensures Departed(t, y)
  {
    KeyThere(s, x);
    hide Scan, Refs, Lru, Parents, Tree, Cached, DirOk, Dotted, Refer, NoNames;
    var f, d := s.ent[y].firstClus, KeyOf(s, x).dir;
    if s.ent[y].valid == -1 && IsDir(s.ent[y].attr) && f != 0 {
      assert HasDir(s.ent[s.ent[x].parent]);
      forall d', n
        ensures !Refer(t.dirs, d', n, f)
      {
        assert !Refer(s.dirs, d', n, f);
        if Refer(t.dirs, d', n, f) {
          WrittenRefer(s, t, x, d', n, f);
        }
      }
      forall c | 0 <= c <= t.n && c != y && HasDir(t.ent[c])
        ensures t.ent[c].firstClus != f
      {
        assert HasDir(s.ent[c]);
      }
    }
  }

  /** A removed directory stays one when it is not touched. */
  lemma DepartedKept(s: S, t: S, y: nat)
    requires Shape(s) && Shape(t) && t.n == s.n && y < s.n && Departed(s, y)
    requires t.ent[y].(ref := s.ent[y].ref) == s.ent[y]
    requires var f := s.ent[y].firstClus; s.ent[y].valid == -1 && IsDir(s.ent[y].attr) && f != 0 ==>
      && f in s.dirs && f in t.dirs && t.dirs[f] == s.dirs[f]
      && (forall d, n {:trigger Refer(t.dirs, d, n, f)} :: Refer(t.dirs, d, n, f) ==> Refer(s.dirs, d, n, f))
      && (forall c {:trigger HasDir(t.ent[c])} :: 0 <= c <= t.n && HasDir(t.ent[c]) ==>
            (HasDir(s.ent[c]) && t.ent[c].firstClus == s.ent[c].firstClus) || t.ent[c].firstClus != f)
    ensures Departed(t, y)
  {
    hide Refer, NoNames;
  }

  // ---------- eremove ----------

  /** The index after cached entry `x` was removed. */
  function Unnamed(s: S, ix: Index, x: nat): Index
    requires x < |s.ent|
  {
    var k := KeyOf(s, x);
    if IsDir(s.ent[x].attr) || k !in ix.files || ix.files[k] >= |ix.role| then ix else
    Index(ix.at, ix.files - {k}, ix.gone[x := ix.files[k]], ix.role[ix.files[k] := GoneOf(x)])
  }

  /** From `s` to `t` cached entry `x` was removed, with its name. */
  ghost predicate RemovedStep(s: S, t: S, x: nat) {
    && Inv(s) && Inv(t) && |s.ent| == s.n + 1 && x < s.n && s.ent[x].valid == 1 && s.ent[x].ref > 0
    && s.ent[x].parent <= s.n
    && t.n == s.n && t.ent == s.ent[x := s.ent[x].(valid := -1)]
    && EntryOps.Erased(s.dirs, t.dirs, Dir(s, x), s.ent[x].name)
    && (IsDir(s.ent[x].attr) ==> s.ent[x].firstClus in s.dirs && NoNames(s.dirs[s.ent[x].firstClus]))
  }

  lemma ErasedNames(dirs: map<nat, seq<Slot>>, dirs': map<nat, seq<Slot>>, d: nat, name: seq<byte>, k: Key)
    requires EntryOps.Erased(dirs, dirs', d, name)
    ensures IsFile(dirs', k) <==> IsFile(dirs, k) && k != Key(d, name)
    ensures IsFile(dirs', k) ==> Scan(dirs'[k.dir], 0, k.name).info == Scan(dirs[k.dir], 0, k.name).info
  {
    hide Scan, DirOk, Dotted;
    if k.dir == d && k.name != name && Searchable(k.name) {
      assert SameHit(Scan(dirs'[d], 0, k.name), Scan(dirs[d], 0, k.name));
    }
  }

  lemma ErasedRefer(dirs: map<nat, seq<Slot>>, dirs': map<nat, seq<Slot>>, d: nat, name: seq<byte>, d': nat,
                    n: seq<byte>, f: nat)
    requires EntryOps.Erased(dirs, dirs', d, name) && Refer(dirs', d', n, f)
    ensures Refer(dirs, d', n, f)
  {
    hide Scan, DirOk, Dotted;
    if d' == d && n != name {
      assert SameHit(Scan(dirs'[d], 0, n), Scan(dirs[d], 0, n));
    }
  }

  /** A cached entry that is a directory has a name that is no file. */
  lemma DirNoFile(s: S, x: nat)
    requires Inv(s) && x < s.n && s.ent[x].valid == 1 && IsDir(s.ent[x].attr)
    ensures !IsFile(s.dirs, KeyOf(s, x))
  {
    hide Scan, Refs, Lru, Tree, DirIds;
    assert OnDisk(s.ent, s.dirs, x);
  }

  /** The name of a removed file is no longer in the index, that of a removed directory never was. */
  lemma RemovedListed(s: S, t: S, ent: seq<Dirent>, ix: Index, x: nat)
    requires RemovedStep(s, t, x) && Files(s, ent, ix) && Indexed(ix)
    ensures Listed(t.dirs, Unnamed(s, ix, x).files)
    ensures forall k {:trigger k in Unnamed(s, ix, x).files} :: k in Unnamed(s, ix, x).files ==>
      k != KeyOf(s, x) && k in ix.files && Unnamed(s, ix, x).files[k] == ix.files[k]
  {
    hide Scan, Inv, Shown, Mirrored, IsFile, EntryOps.Erased, NoNames, Known;
    var ix', key := Unnamed(s, ix, x), KeyOf(s, x);
    if IsDir(s.ent[x].attr) {
      DirNoFile(s, x);
    }
    assert key in ix.files ==> Plays(ix, ix.files[key], FileOf(key));
    forall k
      ensures k in ix'.files <==> IsFile(t.dirs, k)
    {
      ErasedNames(s.dirs, t.dirs, Dir(s, x), s.ent[x].name, k);
    }
  }

  lemma RemovedFiles(s: S, t: S, ent: seq<Dirent>, ix: Index, x: nat)
    requires RemovedStep(s, t, x) && Files(s, ent, ix) && Indexed(ix)
    ensures Files(t, ent, Unnamed(s, ix, x))
  {
    hide Scan, Inv, IsFile, EntryOps.Erased, NoNames, Unnamed, Listed, Indexed;
    RemovedListed(s, t, ent, ix, x);
    var ix', key := Unnamed(s, ix, x), KeyOf(s, x);
    forall y: nat | CachedFile(t, y)
      ensures KeyOf(t, y) in ix'.files && ix'.files[KeyOf(t, y)] < |ent|
      ensures SameFile(ent[ix'.files[KeyOf(t, y)]], t.ent[y])
    {
      assert CachedFile(s, y);
      RemovedOther(s, t, ix, x, y);
    }
    forall k | k in ix'.files && ix'.files[k] < |ent|
      ensures Scanned(ent[ix'.files[k]], t.dirs, k) || exists y: nat :: Pending(t, k, y)
    {
      if y: nat :| Pending(s, k, y) {
        assert Pending(t, k, y);
      } else {
        ErasedNames(s.dirs, t.dirs, Dir(s, x), s.ent[x].name, k);
      }
    }
  }

  /** A cached file other than the removed entry has another name, which is still there. */
  lemma RemovedOther(s: S, t: S, ix: Index, x: nat, y: nat)
    requires RemovedStep(s, t, x) && CachedFile(t, y) && CachedFile(s, y) && y != x && KeyOf(s, y) in ix.files
    ensures KeyOf(t, y) == KeyOf(s, y) && KeyOf(s, y) in Unnamed(s, ix, x).files
    ensures Unnamed(s, ix, x).files[KeyOf(s, y)] == ix.files[KeyOf(s, y)]
  {
    hide Scan, Inv, IsFile, EntryOps.Erased, NoNames;
    if KeyOf(s, y) == KeyOf(s, x) && CachedFile(s, x) {
      KeyOnce(s, x, y);
    }
  }

  /** Giving entry `e`, which was the file `k`, to the removed file `x` keeps the index in order. */
  lemma Regiven(ix: Index, ix': Index, k: Key, x: nat, e: nat)
    requires Indexed(ix) && k in ix.files && e == ix.files[k] && e < |ix.role| && x !in ix.gone
    requires ix' == Index(ix.at, ix.files - {k}, ix.gone[x := e], ix.role[e := GoneOf(x)])
    ensures Indexed(ix')
  {
    assert Plays(ix, e, FileOf(k));
    forall d | d in ix.at
      ensures Plays(ix', ix.at[d], DirOf(d))
    {
      assert Plays(ix, ix.at[d], DirOf(d));
    }
    forall j | j in ix'.files
      ensures Plays(ix', ix'.files[j], FileOf(j))
    {
      assert Plays(ix, ix.files[j], FileOf(j));
    }
    forall y | y in ix'.gone
      ensures Plays(ix', ix'.gone[y], GoneOf(y))
    {
      assert y != x ==> Plays(ix, ix.gone[y], GoneOf(y));
    }
    forall a | 0 <= a < |ix'.role|
      ensures Known(ix', a)
    {
      assert Known(ix, a);
    }
  }

  lemma UnnamedIndexed(s: S, ent: seq<Dirent>, ix: Index, x: nat)
    requires Indexed(ix) && Spares(ent, ix) && |ix.role| == |ent| && x < |s.ent| && x !in ix.gone
    ensures var ix' := Unnamed(s, ix, x); Indexed(ix') && Spares(ent, ix') && |ix'.role| == |ent|
  {
    hide Indexed, KeyOf;
    var ix', k := Unnamed(s, ix, x), KeyOf(s, x);
    if ix' != ix {
      Regiven(ix, ix', k, x, ix.files[k]);
    }
  }

  lemma RemovedGoners(s: S, t: S, ent: seq<Dirent>, ix: Index, x: nat)
    requires RemovedStep(s, t, x) && Filed(s, ent, ix)
    ensures Goners(t, ent, Unnamed(s, ix, x))
  {
    hide Scan, Inv, Departed, Spares, IsFile, EntryOps.Erased, NoNames;
    var ix' := Unnamed(s, ix, x);
    if !IsDir(s.ent[x].attr) {
      assert CachedFile(s, x);
      assert Plays(ix, ix.files[KeyOf(s, x)], FileOf(KeyOf(s, x)));
    }
    forall y: nat | GoneFile(t, y) && t.ent[y].ref > 0
      ensures y in ix'.gone
    {
      assert y != x ==> GoneFile(s, y);
    }
    forall y: nat | y in ix'.gone
      ensures GoneFile(t, y) && t.ent[y].ref > 0 && ix'.gone[y] < |ent| && SameFile(ent[ix'.gone[y]], t.ent[y])
    {
      assert y != x ==> GoneFile(s, y);
    }
  }

  lemma RemovedDeparted(s: S, t: S, x: nat, y: nat)
    requires RemovedStep(s, t, x) && y < s.n && Departed(s, y)
    ensures Departed(t, y)
  {
    hide Scan, Refs, Lru, Parents, Tree, Cached, DirOk, Dotted, Refer, NoNames, Rewrites;
    var d, p := Dir(s, x), s.ent[x].parent;
    ParentDir(s, x);
    if y == x {
      if IsDir(s.ent[x].attr) {
        assert HasDir(t.ent[x]) && HasDir(s.ent[x]);
      }
    } else {
      forall d', n, f | Refer(t.dirs, d', n, f)
        ensures Refer(s.dirs, d', n, f)
      {
        ErasedRefer(s.dirs, t.dirs, d, s.ent[x].name, d', n, f);
      }
      DepartedKept(s, t, y);
    }
  }

  lemma StillNamed(s: S, ent: seq<Dirent>, ix: Index, x: nat)
    requires Goners(s, ent, ix) && x < |s.ent| && s.ent[x].valid != -1
    ensures x !in ix.gone
  {
  }

  lemma FiledRemoved(s: S, t: S, ent: seq<Dirent>, ix: Index, x: nat)
    requires RemovedStep(s, t, x) && Filed(s, ent, ix)
    ensures Filed(t, ent, Unnamed(s, ix, x))
  {
    assert Shape(t);
    hide Scan, Inv, Departed, IsFile, EntryOps.Erased, NoNames, Files, Goners, Spares, Indexed, Unnamed, KeyOf;
    RemovedFiles(s, t, ent, ix, x);
    RemovedGoners(s, t, ent, ix, x);
    assert x !in ix.gone by { StillNamed(s, ent, ix, x); }
    UnnamedIndexed(s, ent, ix, x);
    forall y: nat | y < t.n
      ensures Departed(t, y)
    {
      assert Departed(s, y);
      RemovedDeparted(s, t, x, y);
    }
  }

  // ---------- The last put of a removed entry ----------

  /** The index after the entry `e` of the removed `x` was freed. */
  function Freed(s: S, ix: Index, x: nat, e: nat): Index
    requires x < |s.ent| && e < |ix.role|
  {
    if IsDir(s.ent[x].attr) then ix.(at := ix.at - {s.ent[x].firstClus}, role := ix.role[e := Spare])
    else ix.(gone := ix.gone - {x}, role := ix.role[e := Spare])
  }

  /** From `s` to `t` the last reference to the removed `x` was put and its clusters freed; its entry was `e`. */
  ghost predicate FreedStep(s: S, t: S, ix: Index, x: nat, e: nat) {
    && Inv(s) && Inv(t) && x < s.n && s.ent[x].valid == -1 && s.ent[x].ref == 1 && t.n == s.n
    && 0 !in s.dirs && t.ent == s.ent[x := s.ent[x].(ref := 0, firstClus := 0, fileSize := 0, dirty := true)]
    && t.dirs == (if IsDir(s.ent[x].attr) then s.dirs - {s.ent[x].firstClus} else s.dirs)
    && Plays(ix, e, if IsDir(s.ent[x].attr) then DirOf(s.ent[x].firstClus) else GoneOf(x))
  }

  lemma FreedIndexed(s: S, ent: seq<Dirent>, ent': seq<Dirent>, ix: Index, x: nat, e: nat)
    requires Indexed(ix) && Spares(ent, ix) && |ix.role| == |ent| == |ent'| && x < |s.ent| && e < |ent|
    requires ent' == ent[e := ent'[e]] && ent'[e].firstClus == 0
    requires Plays(ix, e, if IsDir(s.ent[x].attr) then DirOf(s.ent[x].firstClus) else GoneOf(x))
    ensures var ix' := Freed(s, ix, x, e); Indexed(ix') && Spares(ent', ix')
  {
    var ix' := Freed(s, ix, x, e);
    assert Known(ix, e);
    forall d | d in ix'.at
      ensures Plays(ix', ix'.at[d], DirOf(d))
    {
      assert Plays(ix, ix.at[d], DirOf(d));
    }
    forall j | j in ix'.files
      ensures Plays(ix', ix'.files[j], FileOf(j))
    {
      assert Plays(ix, ix.files[j], FileOf(j));
    }
    forall y | y in ix'.gone
      ensures Plays(ix', ix'.gone[y], GoneOf(y))
    {
      assert Plays(ix, ix.gone[y], GoneOf(y));
    }
    forall a | 0 <= a < |ix'.role|
      ensures Known(ix', a)
    {
      assert Known(ix, a);
    }
  }

  /** The directory that was freed had no names. */
  lemma FreedNames(s: S, t: S, ix: Index, x: nat, e: nat, k: Key)
    requires FreedStep(s, t, ix, x, e) && Departed(s, x)
    ensures IsFile(t.dirs, k) <==> IsFile(s.dirs, k)
    ensures k.dir in t.dirs ==> k.dir in s.dirs && t.dirs[k.dir] == s.dirs[k.dir]
  {
    hide Scan, Refs, Lru, Parents, Tree, Cached, Refer;
  }

  lemma FreedFiles(s: S, t: S, ent: seq<Dirent>, ent': seq<Dirent>, ix: Index, x: nat, e: nat)
    requires FreedStep(s, t, ix, x, e) && Filed(s, ent, ix) && e < |ent| == |ent'| && ent' == ent[e := ent'[e]]
    ensures Files(t, ent', Freed(s, ix, x, e))
  {
    hide Scan, Inv, Goners, Spares, IsFile, Known, Departed;
    var ix' := Freed(s, ix, x, e);
    assert Departed(s, x);
    forall k
      ensures IsFile(t.dirs, k) <==> IsFile(s.dirs, k)
    {
      FreedNames(s, t, ix, x, e, k);
    }
    forall y: nat | CachedFile(t, y)
      ensures CachedFile(s, y) && KeyOf(t, y) == KeyOf(s, y)
    {
      ParentDir(s, y);
    }
    forall k | k in ix'.files && ix'.files[k] < |ent'|
      ensures Scanned(ent'[ix'.files[k]], t.dirs, k) || exists y: nat :: Pending(t, k, y)
    {
      assert Plays(ix, ix.files[k], FileOf(k));
      if y: nat :| Pending(s, k, y) {
        ParentDir(s, y);
        assert Pending(t, k, y);
      } else {
        FreedNames(s, t, ix, x, e, k);
        assert Scanned(ent[ix.files[k]], s.dirs, k);
        InTree(t.dirs, k);
      }
    }
    forall y: nat | CachedFile(t, y)
      ensures KeyOf(t, y) in ix'.files && ix'.files[KeyOf(t, y)] < |ent'|
      ensures SameFile(ent'[ix'.files[KeyOf(t, y)]], t.ent[y])
    {
      assert CachedFile(s, y);
      assert Plays(ix, ix.files[KeyOf(s, y)], FileOf(KeyOf(s, y)));
    }
  }

  lemma InTree(dirs: map<nat, seq<Slot>>, k: Key)
    requires IsFile(dirs, k)
    ensures k.dir in dirs
  {
  }

  lemma FreedDeparted(s: S, t: S, ix: Index, x: nat, e: nat, y: nat)
    requires FreedStep(s, t, ix, x, e) && y < s.n && Departed(s, y) && Departed(s, x)
    ensures Departed(t, y)
  {
    hide Scan, Refs, Lru, Parents, Tree, Cached, NoNames;
    if y != x {
      var f := s.ent[y].firstClus;
      if s.ent[y].valid == -1 && IsDir(s.ent[y].attr) && f != 0 && IsDir(s.ent[x].attr) {
        assert HasDir(s.ent[x]);
      }
      forall d, n | Refer(t.dirs, d, n, f)
        ensures Refer(s.dirs, d, n, f)
      {
      }
      forall c | 0 <= c <= t.n && HasDir(t.ent[c])
        ensures HasDir(s.ent[c]) && t.ent[c].firstClus == s.ent[c].firstClus
      {
      }
      DepartedKept(s, t, y);
    }
  }

  lemma FiledFreed(s: S, t: S, ent: seq<Dirent>, ent': seq<Dirent>, ix: Index, x: nat, e: nat)
    requires FreedStep(s, t, ix, x, e) && Filed(s, ent, ix) && e < |ent| == |ent'| && ent' == ent[e := ent'[e]]
    requires ent'[e].firstClus == 0
    ensures Filed(t, ent', Freed(s, ix, x, e))
  {
    assert Shape(t);
    hide Scan, Inv, Departed, IsFile, NoNames, Files, Spares, Indexed;
    FreedFiles(s, t, ent, ent', ix, x, e);
    FreedIndexed(s, ent, ent', ix, x, e);
    FreedGoners(s, t, ent, ent', ix, x, e);
    assert Departed(s, x);
    forall y: nat | y < t.n
      ensures Departed(t, y)
    {
      assert Departed(s, y);
      FreedDeparted(s, t, ix, x, e, y);
    }
  }

  lemma FreedGoners(s: S, t: S, ent: seq<Dirent>, ent': seq<Dirent>, ix: Index, x: nat, e: nat)
    requires FreedStep(s, t, ix, x, e) && Filed(s, ent, ix) && e < |ent| == |ent'| && ent' == ent[e := ent'[e]]
    ensures Goners(t, ent', Freed(s, ix, x, e))
  {
    hide Scan, Inv, Departed, IsFile, Files, Spares;
    var ix' := Freed(s, ix, x, e);
    forall y: nat | GoneFile(t, y) && t.ent[y].ref > 0
      ensures y in ix'.gone
    {
      assert GoneFile(s, y);
    }
    forall y: nat | y in ix'.gone
      ensures GoneFile(t, y) && t.ent[y].ref > 0 && ix'.gone[y] < |ent'| && SameFile(ent'[ix'.gone[y]], t.ent[y])
    {
      assert GoneFile(s, y) && Plays(ix, ix.gone[y], GoneOf(y));
    }
  }

  // ---------- ealloc ----------

  /** The index after the new entry `e` was made for a name. */
  function Named(ix: Index, k: Key, info: Info, e: nat): Index {
    if IsDir(info.attr) then ix.(at := ix.at[info.firstClus := e], role := ix.role + [DirOf(info.firstClus)])
    else ix.(files := ix.files[k := e], role := ix.role + [FileOf(k)])
  }

  /** From `s`, where slot `v` was taken, to `t` the name `k` was made in directory `dp`; its entry is the last one. */
  ghost predicate MadeStep(s: S, t: S, v: nat, dp: nat, k: Key, off: nat, info: Info) {
    && Inv(s) && Inv(t) && v < s.n && dp <= s.n && v != dp && s.ent[v].valid == 0 && !s.ent[v].dirty && t.n == s.n
    && s.ent[dp].valid == 1 && IsDir(s.ent[dp].attr) && k.dir == s.ent[dp].firstClus && 0 !in t.dirs
    && t.ent == s.ent[v := NewEntry(s.ent[v], k.name, off, info).(parent := dp, valid := 1, ref := 1)]
                     [dp := s.ent[dp].(ref := s.ent[dp].ref + 1)]
    && NameMade(s.dirs, t.dirs, k.dir, k.name, off, info)
  }

  lemma StepParts(s: S, t: S, v: nat, dp: nat, k: Key, off: nat, info: Info)
    requires MadeStep(s, t, v, dp, k, off, info)
    ensures Shape(s) && Shape(t) && t.n == s.n && NameMade(s.dirs, t.dirs, k.dir, k.name, off, info)
  {
    hide DiskInv, Refs, Lru, Parents, NameMade;
  }

  lemma MadeNames(dirs: map<nat, seq<Slot>>, dirs': map<nat, seq<Slot>>, key: Key, off: nat, info: Info, k: Key)
    requires NameMade(dirs, dirs', key.dir, key.name, off, info)
    ensures IsFile(dirs', k) <==> IsFile(dirs, k) || (k == key && !IsDir(info.attr))
    ensures IsFile(dirs, k) ==> Scan(dirs'[k.dir], 0, k.name).info == Scan(dirs[k.dir], 0, k.name).info
    ensures !IsFile(dirs, key) && key.dir in dirs' && key.name != []
      && Scan(dirs'[key.dir], 0, key.name) == Hit(off, info)
    ensures IsDir(info.attr) ==> info.firstClus !in dirs && info.firstClus in dirs'
  {
    hide Scan, DirOk, Dotted, IsDirEmpty;
    if k.dir == key.dir && k.name != key.name && Searchable(k.name) {
      assert SameHit(Scan(dirs'[key.dir], 0, k.name), Scan(dirs[key.dir], 0, k.name));
    }
  }

  lemma MadeIndexed(ent: seq<Dirent>, ent': seq<Dirent>, ix: Index, k: Key, info: Info)
    requires Indexed(ix) && Spares(ent, ix) && |ix.role| == |ent| && |ent'| == |ent| + 1
    requires OnlyCursors(ent, ent'[..|ent|])
    requires if IsDir(info.attr) then info.firstClus !in ix.at else k !in ix.files
    ensures var ix' := Named(ix, k, info, |ent|); Indexed(ix') && Spares(ent', ix') && |ix'.role| == |ent'|
  {
    var ix' := Named(ix, k, info, |ent|);
    forall d | d in ix'.at
      ensures Plays(ix', ix'.at[d], DirOf(d))
    {
      assert d in ix.at ==> Plays(ix, ix.at[d], DirOf(d));
    }
    forall j | j in ix'.files
      ensures Plays(ix', ix'.files[j], FileOf(j))
    {
      assert j in ix.files ==> Plays(ix, ix.files[j], FileOf(j));
    }
    forall y | y in ix'.gone
      ensures Plays(ix', ix'.gone[y], GoneOf(y))
    {
      assert Plays(ix, ix.gone[y], GoneOf(y));
    }
    forall e | 0 <= e < |ix'.role|
      ensures Known(ix', e)
    {
      assert e < |ix.role| ==> Known(ix, e);
    }
    forall e | 0 <= e < |ix'.role| && ix'.role[e] == Spare
      ensures ent'[e].firstClus == 0
    {
      assert e < |ent| && ix.role[e] == Spare;
      assert SameFields(ent[e], ent'[..|ent|][e]);
    }
  }

  /** Cached files before a name is made stay the files they are. */
  lemma MadeCached(s: S, t: S, v: nat, dp: nat, k: Key, off: nat, info: Info, y: nat)
    requires MadeStep(s, t, v, dp, k, off, info)
    ensures y != v ==> (CachedFile(s, y) <==> CachedFile(t, y))
    ensures CachedFile(s, y) ==> KeyOf(t, y) == KeyOf(s, y) && t.ent[y].(ref := s.ent[y].ref) == s.ent[y]
    ensures KeyOf(t, v) == k && !CachedFile(s, v)
  {
    hide Scan, NameMade;
    if CachedFile(s, y) {
      ParentDir(s, y);
    }
  }

  /** The entry of a file is still what its slot or the cache says. */
  lemma MadeOld(s: S, t: S, ent: seq<Dirent>, ent': seq<Dirent>, ix: Index,
                v: nat, dp: nat, k: Key, off: nat, info: Info, j: Key)
    requires MadeStep(s, t, v, dp, k, off, info) && Files(s, ent, ix) && |ent'| == |ent| + 1
    requires OnlyCursors(ent, ent'[..|ent|]) && j in ix.files && ix.files[j] < |ent|
    ensures Scanned(ent'[ix.files[j]], t.dirs, j) || exists y: nat :: Pending(t, j, y)
  {
    hide Scan, Inv, MadeStep, NameMade;
    StepParts(s, t, v, dp, k, off, info);
    MadeNames(s.dirs, t.dirs, k, off, info, j);
    assert SameFields(ent[ix.files[j]], ent'[..|ent|][ix.files[j]]);
    if y: nat :| Pending(s, j, y) {
      MadeCached(s, t, v, dp, k, off, info, y);
      assert Pending(t, j, y) by { StillPending(s, t, j, y, v); }
    }
  }

  lemma StillPending(s: S, t: S, j: Key, y: nat, v: nat)
    requires Pending(s, j, y) && t.n == s.n && y < |t.ent| == |s.ent|
    requires KeyOf(t, y) == KeyOf(s, y) && t.ent[y].(ref := s.ent[y].ref) == s.ent[y]
    ensures Pending(t, j, y)
  {
  }

  /** The new file is cached as it was made. */
  lemma MadeNew(s: S, t: S, v: nat, dp: nat, k: Key, off: nat, info: Info)
    requires MadeStep(s, t, v, dp, k, off, info)
    ensures t.n == s.n && v < |t.ent| == |s.ent| && t.ent[v].attr == info.attr
    ensures t.ent[v].firstClus == info.firstClus && t.ent[v].fileSize == info.fileSize
  {
    hide Scan, NameMade, DiskInv, Refs, Lru, Parents;
  }

  lemma MadeListed(s: S, t: S, ent: seq<Dirent>, ix: Index, v: nat, dp: nat, k: Key, off: nat, info: Info)
    requires MadeStep(s, t, v, dp, k, off, info) && Listed(s.dirs, ix.files)
    ensures Listed(t.dirs, Named(ix, k, info, |ent|).files)
  {
    hide IsFile, NameMade, MadeStep, Scan;
    StepParts(s, t, v, dp, k, off, info);
    forall j
      ensures j in Named(ix, k, info, |ent|).files <==> IsFile(t.dirs, j)
    {
      MadeNames(s.dirs, t.dirs, k, off, info, j);
    }
  }

  lemma MadeShown(s: S, t: S, ent: seq<Dirent>, ent': seq<Dirent>, ix: Index,
                  v: nat, dp: nat, k: Key, off: nat, info: Info)
    requires MadeStep(s, t, v, dp, k, off, info) && Files(s, ent, ix) && Indexed(ix) && |ix.role| == |ent|
    requires |ent'| == |ent| + 1
    requires OnlyCursors(ent, ent'[..|ent|]) && (!IsDir(info.attr) ==> Says(ent'[|ent|], info))
    ensures Shown(t, ent', Named(ix, k, info, |ent|).files)
  {
    hide Scan, NameMade, MadeStep, Pending, Mirrored, IsFile, OnlyCursors;
    StepParts(s, t, v, dp, k, off, info);
    var ix' := Named(ix, k, info, |ent|);
    forall j | j in ix'.files && ix'.files[j] < |ent'|
      ensures Scanned(ent'[ix'.files[j]], t.dirs, j) || exists y: nat :: Pending(t, j, y)
    {
      MadeNames(s.dirs, t.dirs, k, off, info, j);
      if j in ix.files {
        assert Plays(ix, ix.files[j], FileOf(j));
        MadeOld(s, t, ent, ent', ix, v, dp, k, off, info, j);
      }
    }
  }

  lemma MadeMirrored(s: S, t: S, ent: seq<Dirent>, ent': seq<Dirent>, ix: Index,
                     v: nat, dp: nat, k: Key, off: nat, info: Info)
    requires MadeStep(s, t, v, dp, k, off, info) && Files(s, ent, ix) && |ent'| == |ent| + 1
    requires OnlyCursors(ent, ent'[..|ent|]) && (!IsDir(info.attr) ==> Says(ent'[|ent|], info))
    ensures Mirrored(t, ent', Named(ix, k, info, |ent|).files)
  {
    hide Scan, NameMade, MadeStep, IsFile, Shown;
    StepParts(s, t, v, dp, k, off, info);
    MadeNew(s, t, v, dp, k, off, info);
    MadeNames(s.dirs, t.dirs, k, off, info, k);
    var ix' := Named(ix, k, info, |ent|);
    forall y: nat | CachedFile(t, y)
      ensures KeyOf(t, y) in ix'.files && ix'.files[KeyOf(t, y)] < |ent'|
      ensures SameFile(ent'[ix'.files[KeyOf(t, y)]], t.ent[y])
    {
      MadeCached(s, t, v, dp, k, off, info, y);
      if y != v {
        assert SameFields(ent[ix.files[KeyOf(s, y)]], ent'[..|ent|][ix.files[KeyOf(s, y)]]);
      }
    }
  }

  lemma MadeGoners(s: S, t: S, ent: seq<Dirent>, ent': seq<Dirent>, ix: Index,
                   v: nat, dp: nat, k: Key, off: nat, info: Info)
    requires MadeStep(s, t, v, dp, k, off, info) && Filed(s, ent, ix) && |ent'| == |ent| + 1
    requires OnlyCursors(ent, ent'[..|ent|])
    ensures Goners(t, ent', Named(ix, k, info, |ent|))
  {
    hide Scan, Inv, Departed, IsFile, Files, Spares, NameMade;
    forall y: nat | GoneFile(t, y)
      ensures GoneFile(s, y) && t.ent[y] == s.ent[y]
    {
    }
    forall y: nat | y in ix.gone
      ensures GoneFile(t, y) && t.ent[y] == s.ent[y] && SameFile(ent'[ix.gone[y]], t.ent[y])
    {
      assert GoneFile(s, y);
      assert SameFields(ent[ix.gone[y]], ent'[..|ent|][ix.gone[y]]);
    }
  }

  lemma MadeDeparted(s: S, t: S, v: nat, dp: nat, k: Key, off: nat, info: Info, y: nat)
    requires MadeStep(s, t, v, dp, k, off, info) && y < s.n && Departed(s, y)
    ensures Departed(t, y)
  {
    hide Scan, Refs, Lru, Parents, Tree, Cached, DirIds, NoNames, DirOk, Dotted, Rewrites, IsDirEmpty, Refer;
    assert HasDir(s.ent[dp]);
    var f := s.ent[y].firstClus;
    if t.ent[y].valid == -1 && IsDir(t.ent[y].attr) && f != 0 {
      assert y != v && y != dp && f in s.dirs && f != k.dir;
      forall d, n | Refer(t.dirs, d, n, f)
        ensures Refer(s.dirs, d, n, f)
      {
        CreatedRefer(s.dirs, t.dirs, k.dir, t.dirs[k.dir], k.name, d, n, f);
      }
      DepartedKept(s, t, y);
    }
  }

  lemma FiledMade(s: S, t: S, ent: seq<Dirent>, ent': seq<Dirent>, ix: Index,
                  v: nat, dp: nat, k: Key, off: nat, info: Info)
    requires MadeStep(s, t, v, dp, k, off, info) && Filed(s, ent, ix) && |ent'| == |ent| + 1
      && ix.at.Keys == s.dirs.Keys
    requires OnlyCursors(ent, ent'[..|ent|]) && (!IsDir(info.attr) ==> Says(ent'[|ent|], info))
    ensures Filed(t, ent', Named(ix, k, info, |ent|))
  {
    hide Scan, Inv, Departed, IsFile, NoNames, Listed, Shown, Mirrored, Spares, Indexed, Goners, MadeStep, NameMade,
      OnlyCursors, Says, Named;
    StepParts(s, t, v, dp, k, off, info);
    MadeListed(s, t, ent, ix, v, dp, k, off, info);
    MadeShown(s, t, ent, ent', ix, v, dp, k, off, info);
    MadeMirrored(s, t, ent, ent', ix, v, dp, k, off, info);
    MadeNames(s.dirs, t.dirs, k, off, info, k);
    NotYet(s, ent, ix, k);
    MadeIndexed(ent, ent', ix, k, info);
    MadeGoners(s, t, ent, ent', ix, v, dp, k, off, info);
    forall y: nat | y < t.n
      ensures Departed(t, y)
    {
      assert Departed(s, y);
      MadeDeparted(s, t, v, dp, k, off, info, y);
    }
  }

  lemma NotYet(s: S, ent: seq<Dirent>, ix: Index, k: Key)
    requires Files(s, ent, ix) && !IsFile(s.dirs, k)
    ensures k !in ix.files
  {
  }

  // ---------- The operations on cache and volume ----------

  /** `ewrite` of an open file, removed or not. */
  method WriteOpen(fs: FileSystem, ghost s: S, ghost ix: Index, e: nat, ghost x: nat, src: seq<byte>, off: nat)
      returns (ok: bool, r: int, ghost t: S)
    requires Whole(fs, s, ix) && x < s.n && s.ent[x].ref > 0 && s.ent[x].valid in {1, -1} && !IsDir(s.ent[x].attr)
    requires (if s.ent[x].valid == 1 then KeyOf(s, x) in ix.files else x in ix.gone) && e == EntryOfFile(s, ix, x)
    requires off < U32 && |src| < U32
    modifies fs
    ensures ok ==> Whole(fs, t, ix) && e < |fs.ent| == |old(fs.ent)| && t == Synced(s, x, fs.ent[e])
    ensures ok ==> Except(old(Faces(fs)), Faces(fs), e)
    ensures ok ==> if old(fs.EWriteRefused(e, off, |src|)) then r == -1 && fs.St() == old(fs.St()) else
      r == |src| && Overwrites(fs.File(e), old(fs.File(e)), off, src)
  {
    hide DiskInv, Refs, Lru, Parents, Stored, FsInv, Rep, Filed, Except, Overwrites;
    OwnEntry(s, fs.ent, ix, x);
    ok, r, t := WriteFile(fs, s, ix.at, e, x, src, off);
    if ok {
      FiledSynced(s, old(fs.ent), ix, x, fs.ent[e]);
    }
  }

  /** `etrunc` of an open file, removed or not. */
  method TruncateOpen(fs: FileSystem, ghost s: S, ghost ix: Index, e: nat, ghost x: nat)
      returns (ghost t: S)
    requires Whole(fs, s, ix) && x < s.n && s.ent[x].ref > 0 && s.ent[x].valid in {1, -1} && !IsDir(s.ent[x].attr)
    requires (if s.ent[x].valid == 1 then KeyOf(s, x) in ix.files else x in ix.gone) && e == EntryOfFile(s, ix, x)
    modifies fs
    ensures t == Modified(s, x, 0, 0) && Whole(fs, t, ix) && e < |fs.ent| && fs.File(e) == []
    ensures fs.chain == old(fs.chain)[e := []] && Except(old(Faces(fs)), Faces(fs), e)
  {
    hide DiskInv, Refs, Lru, Parents, Stored, FsInv, Rep, Filed, Except;
    OwnEntry(s, fs.ent, ix, x);
    TruncateFile(fs, s.dirs, ix.at, e);
    ModifiedInv(s, x, 0, 0);
    t := Modified(s, x, 0, 0);
    FiledSynced(s, old(fs.ent), ix, x, fs.ent[e]);
    hide Inv;
    FiledMarked(Synced(s, x, fs.ent[e]), fs.ent, ix, x);
    assert t == Synced(s, x, fs.ent[e]).(ent := Synced(s, x, fs.ent[e]).ent[x := t.ent[x]]);
  }

  /** `eupdate` of a cached file. */
  method Flush(fs: FileSystem, ghost s: S, ghost ix: Index, p: nat, ghost x: nat, off: nat, firstClus: nat,
               fileSize: nat)
      returns (ghost t: S)
    requires Whole(fs, s, ix) && CachedFile(s, x) && s.ent[x].dirty && s.ent[x].parent <= s.n
    requires off == s.ent[x].off && firstClus == s.ent[x].firstClus && fileSize == s.ent[x].fileSize
    requires Dir(s, x) in ix.at && p == ix.at[Dir(s, x)]
    modifies fs
    ensures Whole(fs, t, ix) && WrittenBack(s, t, x) && Except(old(Faces(fs)), Faces(fs), p)
  {
    hide Inv, Stored, FsInv, Rep, Filed, Except, WrittenBack;
    t := WriteBack(fs, s, ix.at, p, x, off, firstClus, fileSize);
    FiledWritten(s, t, old(fs.ent), ix, x);
    CursorsOnly(old(fs.ent), fs.ent, p);
    FiledCursors(t, old(fs.ent), fs.ent, ix);
  }

  /** `eremove` of a file or of an empty directory. */
  method Unlink(fs: FileSystem, ghost s: S, ghost ix: Index, p: nat, ghost x: nat, off: nat)
      returns (ghost t: S)
    requires Whole(fs, s, ix) && x < s.n && EntryPath.Live(s, x) && s.ent[x].valid == 1 && s.ent[x].parent <= s.n
    requires IsDir(s.ent[x].attr) ==> s.ent[x].firstClus in s.dirs && IsDirEmpty(s.dirs[s.ent[x].firstClus])
    requires off == s.ent[x].off && Dir(s, x) in ix.at && p == ix.at[Dir(s, x)]
    modifies fs
    ensures Whole(fs, t, Unnamed(s, ix, x)) && t.ent == s.ent[x := s.ent[x].(valid := -1)]
    ensures EntryOps.Erased(s.dirs, t.dirs, Dir(s, x), s.ent[x].name) && Except(old(Faces(fs)), Faces(fs), p)
  {
    hide Stored, FsInv, Rep, Filed, Except, EntryOps.Erased, IsDirEmpty, DiskInv, Refs, Lru, Parents, Unnamed, NoNames;
    t := Remove(fs, s, ix.at, p, x, off);
    if IsDir(s.ent[x].attr) {
      DirThere(s, x);
      EmptyDir(s.dirs[s.ent[x].firstClus]);
    }
    hide Inv;
    FiledRemoved(s, t, old(fs.ent), ix, x);
    CursorsOnly(old(fs.ent), fs.ent, p);
    FiledCursors(t, old(fs.ent), fs.ent, Unnamed(s, ix, x));
    UnnamedAt(s, ix, x);
  }

  lemma UnnamedAt(s: S, ix: Index, x: nat)
    requires x < |s.ent|
    ensures Unnamed(s, ix, x).at == ix.at
  {
  }

  /** The last `eput` of a removed entry, up to putting its parent: its clusters are freed. */
  method PutRemoved(fs: FileSystem, ghost s: S, ghost ix: Index, e: nat, ghost x: nat)
      returns (ghost t: S)
    requires Whole(fs, s, ix) && x < s.n && s.ent[x].valid == -1 && s.ent[x].ref == 1 && s.holders[x] > 0
      && s.ent[x].parent <= s.n
    requires e < |ix.role| && ix.role[e] == if IsDir(s.ent[x].attr) then DirOf(s.ent[x].firstClus) else GoneOf(x)
    modifies fs
    ensures t == Truncated(Dropped(s, x), x) && Whole(fs, t, Freed(s, ix, x, e))
    ensures fs.chain == old(fs.chain)[e := []] && Except(old(Faces(fs)), Faces(fs), e)
  {
    hide Stored, FsInv, Rep, Except, DiskInv, Refs, Lru, Parents, Files, Spares, Departed;
    ghost var m := Dropped(s, x);
    DroppedInv(s, x);
    NoZero(fs, s.dirs, ix.at);
    RemovedAlone(s, fs.ent, ix, x, e);
    ghost var at';
    t, at' := FreeRemoved(fs, m, ix.at, e, x);
    hide Inv, Indexed, Goners;
    FiledFreed(s, t, old(fs.ent), fs.ent, ix, x, e);
  }

  lemma DroppedInv(s: S, x: nat)
    requires Inv(s) && x < s.n && s.ent[x].valid == -1 && s.ent[x].ref == 1 && s.holders[x] > 0
      && s.ent[x].parent <= s.n
    ensures Inv(Dropped(s, x))
  {
    hide DiskInv, Refs, Lru, Parents;
    DroppedCore(s, x);
    DroppedDisk(s, x);
  }

  /** No directory begins at cluster 0. */
  lemma NoZero(fs: FileSystem, dirs: map<nat, seq<Slot>>, at: map<nat, nat>)
    requires Linked(fs, dirs, at)
    ensures 0 !in dirs
  {
    hide Content, Directory.SlotsOf, Rep;
    assert 0 in dirs ==> FileInv(fs.g.bytsPerClus, fs.v.fat, fs.ent[at[0]], fs.chain[at[0]]);
  }

  /** What the invariants say about a removed entry when its last reference goes. */
  lemma RemovedAlone(s: S, ent: seq<Dirent>, ix: Index, x: nat, e: nat)
    requires Inv(s) && Filed(s, ent, ix) && x < s.n && s.ent[x].valid == -1 && s.ent[x].ref == 1
      && s.ent[x].parent <= s.n
    requires e < |ix.role| && ix.role[e] == (if IsDir(s.ent[x].attr) then DirOf(s.ent[x].firstClus) else GoneOf(x))
    requires 0 !in s.dirs
    ensures var m := Dropped(s, x); IsDir(s.ent[x].attr) ==>
      && s.ent[x].firstClus in ix.at && e == ix.at[s.ent[x].firstClus]
      && (forall d, n {:trigger Refer(m.dirs, d, n, s.ent[x].firstClus)} :: !Refer(m.dirs, d, n, s.ent[x].firstClus))
      && (forall c {:trigger HasDir(m.ent[c])} ::
          0 <= c <= m.n && HasDir(m.ent[c]) ==> m.ent[c].firstClus != m.ent[x].firstClus)
    ensures !IsDir(s.ent[x].attr) ==> e < |ent| && ent[e].firstClus == s.ent[x].firstClus
    ensures !IsDir(s.ent[x].attr) ==> forall d {:trigger ix.at[d]} :: d in ix.at ==> ix.at[d] != e
  {
    hide Scan, Refs, Lru, Parents, Tree, Cached, Refer, NoNames, Files, Spares;
    assert Known(ix, e) && Departed(s, x);
    var m := Dropped(s, x);
    if IsDir(s.ent[x].attr) {
      assert HasDir(s.ent[x]);
      forall c | 0 <= c <= m.n && HasDir(m.ent[c])
        ensures m.ent[c].firstClus != m.ent[x].firstClus
      {
        assert c != x && HasDir(s.ent[c]);
      }
    }
  }

  /** Slot `v` was taken for a name in directory `dp`, which begins at cluster `d` and is the entry `p`. */
  ghost predicate SlotTaken(s: S, m: S, v: nat, dp: nat, at: map<nat, nat>, d: nat, p: nat) {
    && Inv(m) && TakeStep(s, m, v) && EntryPath.Live(s, dp) && s.ent[dp].valid == 1 && IsDir(s.ent[dp].attr)
    && d == s.ent[dp].firstClus && d in at && p == at[d] && d < U32
  }

  /** The scan for the name gives up at slot `off`, which is not one of the first two. */
  ghost predicate NewName(dirs: map<nat, seq<Slot>>, k: Key, off: nat) {
    && NameOk(k.name) && Searchable(k.name) && Directory.Printable(k.name)
    && k.dir in dirs && Scan(dirs[k.dir], 0, k.name) == Miss(off) && off >= 2
  }

  /** `ealloc` when the name is new: slot `v` was taken, and the name is made. */
  method CreateName(fs: FileSystem, ghost s: S, ghost m: S, ghost ix: Index, p: nat, ghost dp: nat, ghost v: nat,
                    d: nat, nm: seq<byte>, attr: byte, off: nat)
      returns (ok: bool, e: nat, f: nat, ghost t: S)
    requires Whole(fs, s, ix) && SlotTaken(s, m, v, dp, ix.at, d, p) && NewName(s.dirs, Key(d, nm), off)
    requires attr == ATTR_DIRECTORY || !IsDir(attr)
    modifies fs
    ensures ok <==> old(p < |fs.chain| && Room(fs.g.bytsPerClus, fs.v.fat, fs.chain[p], attr, off, nm))
    ensures ok ==> Whole(fs, t, Named(ix, Key(d, nm), AllocInfo(attr, f), e)) && e == |old(fs.ent)|
    ensures ok ==> NameMade(s.dirs, t.dirs, d, nm, off, AllocInfo(attr, f)) && Except(old(Faces(fs)), Faces(fs), p)
    ensures ok ==> EntryPath.Live(s, dp) && Gained(s, t, v, EntryPath.PathOf(s, dp) + [nm])
  {
    hide FsInv, Rep, Except, Inv, Filed, Scan, NameMade, Gained, EntryPath.PathOf, TakeStep, Filled, AllocInfo, Says,
      OnlyCursors, SameButCursor, NewEntry, NameOk, Searchable, Directory.Printable, Faces;
    assert ix.at.Keys == s.dirs.Keys;
    hide Stored;
    ghost var at';
    ok, e, f, t, at' := Allocate(fs, s, m, ix.at, p, dp, v, d, nm, attr, off);
    if ok {
      NoZero(fs, t.dirs, at');
      CursorsOnly(old(fs.ent), fs.ent[..e], p);
      NewSays(fs.ent[e], attr, f);
      CreatedFiled(s, m, t, old(fs.ent), fs.ent, ix, v, dp, Key(d, nm), off, AllocInfo(attr, f));
    }
  }

  lemma NewSays(d: Dirent, attr: byte, f: nat)
    requires attr == ATTR_DIRECTORY || (!IsDir(attr) && d == EntryOf(AllocAttr(attr) as nat, 0, 0))
    ensures !IsDir(AllocInfo(attr, f).attr) ==> Says(d, AllocInfo(attr, f))
    ensures IsDir(AllocInfo(attr, f).attr) <==> attr == ATTR_DIRECTORY
    ensures attr == ATTR_DIRECTORY ==> AllocInfo(attr, f).firstClus == f
  {
  }

  lemma CreatedFiled(s: S, m: S, t: S, ent: seq<Dirent>, ent': seq<Dirent>, ix: Index,
                     v: nat, dp: nat, k: Key, off: nat, info: Info)
    requires Inv(s) && Inv(m) && Inv(t) && TakeStep(s, m, v) && EntryPath.Live(s, dp) && s.ent[dp].valid == 1
    requires IsDir(s.ent[dp].attr) && k.dir == s.ent[dp].firstClus && 0 !in t.dirs
    requires v < |m.ent| && dp < |m.ent| == |m.rank|
    requires t == Filled(m.(dirs := t.dirs), v, dp, NewEntry(m.ent[v], k.name, off, info))
    requires NameMade(s.dirs, t.dirs, k.dir, k.name, off, info)
    requires Filed(s, ent, ix) && |ent'| == |ent| + 1 && ix.at.Keys == s.dirs.Keys
    requires OnlyCursors(ent, ent'[..|ent|]) && (!IsDir(info.attr) ==> Says(ent'[|ent|], info))
    ensures Filed(t, ent', Named(ix, k, info, |ent|))
  {
    hide Inv, Filed, NameMade, OnlyCursors;
    QuietTaken(s, m, v);
    QuietFiled(s, m, ent, ix);
    AllocatedStep(s, m, t, v, dp, k, off, info);
    hide MadeStep;
    FiledMade(m, t, ent, ent', ix, v, dp, k, off, info);
  }

  lemma AllocatedStep(s: S, m: S, t: S, v: nat, dp: nat, k: Key, off: nat, info: Info)
    requires Inv(s) && Inv(m) && Inv(t) && TakeStep(s, m, v) && EntryPath.Live(s, dp) && s.ent[dp].valid == 1
    requires IsDir(s.ent[dp].attr) && k.dir == s.ent[dp].firstClus && 0 !in t.dirs
    requires v < |m.ent| && dp < |m.ent| == |m.rank|
    requires t == Filled(m.(dirs := t.dirs), v, dp, NewEntry(m.ent[v], k.name, off, info))
    requires NameMade(s.dirs, t.dirs, k.dir, k.name, off, info)
    ensures MadeStep(m, t, v, dp, k, off, info)
  {
    hide DiskInv, Refs, Lru, Parents, NameMade;
    TakenSame(s, m, v, dp);
  }

  lemma QuietTaken(s: S, m: S, v: nat)
    requires TakeStep(s, m, v)
    ensures Quiet(s, m)
  {
    hide EntryPath.LiveKept;
  }

  // ---------- Cache steps and scans ----------

  /** A step of the cache alone concerns neither volume nor index. */
  lemma CacheStep(fs: FileSystem, s: S, t: S, ix: Index)
    requires Whole(fs, s, ix) && Inv(t) && Quiet(s, t)
    ensures Whole(fs, t, ix)
  {
    hide Inv, Filed, Linked;
    QuietFiled(s, t, fs.ent, ix);
  }

  lemma QuietDrop(s: S, x: nat)
    requires Shape(s) && x < s.n && s.ent[x].valid == 1 && s.ent[x].parent <= s.n
    ensures Shape(Dropped(s, x)) ==> Quiet(s, Dropped(s, x))
  {
    hide ToFront, FrontPos;
  }

  /** The steps of the cache that touch no disk: hit, recycling, filling, one reference more or less, the last one. */
  ghost predicate CacheMove(s: S, t: S) {
    && Shape(s)
    && (|| (exists c: nat {:trigger s.ent[c]} :: c < s.n && s.ent[c].valid == 1 && s.ent[c].parent <= s.n
              && s.ent[s.ent[c].parent].valid == 1 && t == HitOn(s, c))
        || (exists v: nat {:trigger Taken(s, v)} :: v < s.n && s.ent[v].ref == 0 && t == Taken(s, v))
        || (exists v: nat, dp: nat, e: Entry {:trigger Filled(s, v, dp, e)} :: v < s.n && dp <= s.n && v != dp
              && s.ent[v].valid == 0 && s.ent[dp].valid == 1 && !e.dirty && t == Filled(s, v, dp, e))
        || (exists p: nat {:trigger Dupped(s, p)} ::
              p <= s.n && (s.ent[p].valid == -1 ==> s.ent[p].ref > 0) && t == Dupped(s, p))
        || (exists p: nat {:trigger Unheld(s, p)} ::
              p <= s.n && (s.ent[p].valid == -1 ==> s.ent[p].ref > 1) && t == Unheld(s, p))
        || (exists x: nat {:trigger Dropped(s, x)} ::
              x < s.n && s.ent[x].valid == 1 && s.ent[x].parent <= s.n && t == Dropped(s, x)))
  }

  lemma MoveQuiet(s: S, t: S)
    requires CacheMove(s, t) && Shape(t)
    ensures Quiet(s, t)
  {
    hide ToFront, FrontPos;
    assert t.n == s.n && t.dirs == s.dirs;
    forall c | 0 <= c <= s.n
      ensures QuietEntry(s.ent[c], t.ent[c])
    {
    }
  }

  /** They keep cache and volume together. */
  lemma CacheMoves(fs: FileSystem, s: S, t: S, ix: Index)
    requires Whole(fs, s, ix) && Inv(t) && CacheMove(s, t)
    ensures Whole(fs, t, ix)
  {
    hide Filed, Linked, CacheMove, DiskInv, Refs, Lru, Parents;
    MoveQuiet(s, t);
    hide Inv;
    CacheStep(fs, s, t, ix);
  }

  /** `dirlookup` on the volume: only the cursor of the directory moves. */
  method Look(fs: FileSystem, ghost s: S, ghost ix: Index, p: nat, ghost dp: nat, name: seq<byte>)
      returns (found: DirModel.Found)
    requires Whole(fs, s, ix) && dp <= s.n && s.ent[dp].valid == 1 && IsDir(s.ent[dp].attr) && Searchable(name)
    requires s.ent[dp].firstClus in ix.at && p == ix.at[s.ent[dp].firstClus]
    modifies fs
    ensures Whole(fs, s, ix) && Except(old(Faces(fs)), Faces(fs), p) && s.ent[dp].firstClus in s.dirs
    ensures found == Scan(s.dirs[s.ent[dp].firstClus], 0, name)
    ensures found.Hit? && !IsDir(found.info.attr) ==>
      var k := Key(s.ent[dp].firstClus, name);
      k in ix.files && ix.files[k] < |fs.ent|
        && (Says(fs.ent[ix.files[k]], found.info) || exists x: nat :: Pending(s, k, x))
  {
    hide DiskInv, Refs, Lru, Parents, Stored, FsInv, Rep, Filed, Except, Scan, IsDir;
    found := ColdScan(fs, s, ix.at, p, dp, name);
    CursorsOnly(old(fs.ent), fs.ent, p);
    FiledCursors(s, old(fs.ent), fs.ent, ix);
    FoundFile(s, fs.ent, ix, Key(s.ent[dp].firstClus, name));
  }

  /** What a scan finds is what the entry of the file says, unless the cache has a newer version. */
  lemma FoundFile(s: S, ent: seq<Dirent>, ix: Index, k: Key)
    requires Filed(s, ent, ix) && k.dir in s.dirs && Searchable(k.name)
    ensures IsFile(s.dirs, k) ==>
      && k in ix.files && ix.files[k] < |ent|
      && (Says(ent[ix.files[k]], Scan(s.dirs[k.dir], 0, k.name).info) || exists x: nat :: Pending(s, k, x))
  {
    hide Scan, Departed, Goners, Spares, Mirrored, Pending, Shape, Known;
    assert IsFile(s.dirs, k) ==> Plays(ix, ix.files[k], FileOf(k));
  }

  /** The last `eput` of a cached file, up to putting its parent: what is new goes to the directory first. */
  method PutCached(fs: FileSystem, ghost s: S, ghost ix: Index, p: nat, ghost x: nat, dirty: bool, off: nat,
                   firstClus: nat, fileSize: nat)
      returns (ghost t: S)
    requires Whole(fs, s, ix) && CachedFile(s, x) && s.ent[x].ref == 1 && s.holders[x] > 0 && s.ent[x].parent <= s.n
    requires dirty == s.ent[x].dirty && off == s.ent[x].off
    requires firstClus == s.ent[x].firstClus && fileSize == s.ent[x].fileSize
    requires Dir(s, x) in ix.at && p == ix.at[Dir(s, x)]
    modifies fs
    ensures Whole(fs, t, ix) && t.n == s.n && x < |t.ent| && t.ent[x] == s.ent[x].(ref := 0, dirty := false)
    ensures Except(old(Faces(fs)), Faces(fs), p)
  {
    hide DiskInv, Refs, Lru, Parents, Stored, FsInv, Rep, Filed, Except, WrittenBack, ToFront, FrontPos;
    ghost var m := s;
    if dirty {
      m := Flush(fs, s, ix, p, x, off, firstClus, fileSize);
      FlushedFields(s, m, x);
    } else {
      SameFaces(Faces(fs), p);
    }
    DropClean(m, x);
    QuietDrop(m, x);
    t := Dropped(m, x);
    hide Inv, Linked;
    CacheStep(fs, m, t, ix);
  }

  lemma SameFaces(a: seq<Face>, p: int)
    ensures Except(a, a, p)
  {
  }

  lemma FlushedFields(s: S, t: S, x: nat)
    requires CachedFile(s, x) && s.ent[x].dirty && WrittenBack(s, t, x)
    ensures t.n == s.n && t.ent == s.ent[x := s.ent[x].(dirty := false)] && t.holders == s.holders
  {
    hide Scan, Rewrites;
  }

  lemma DropClean(s: S, x: nat)
    requires Inv(s) && CachedFile(s, x) && !s.ent[x].dirty && s.ent[x].ref == 1 && s.holders[x] > 0
      && s.ent[x].parent <= s.n
    ensures Inv(Dropped(s, x)) && Shape(Dropped(s, x)) && s.ent[s.ent[x].parent].valid == 1
  {
    hide DiskInv, Refs, Lru, ToFront, FrontPos;
    DroppedCore(s, x);
    DroppedDisk(s, x);
    assert Attached(s.ent[x]);
  }

  // ---------- Mounting, and what is left behind ----------

  /** What a check of the volume alone establishes: whose chain is whose, and that nothing is shared. */
  ghost predicate Consistent(bpc: nat, v: Vol, ent: seq<Dirent>, chain: seq<seq<nat>>, dirs: map<nat, seq<Slot>>,
                             ix: Index) {
    && |chain| == |ent| == |ix.role| && Disjoint(chain)
    && (forall e {:trigger ent[e]} :: 0 <= e < |ent| ==> FileInv(bpc, v.fat, ent[e], chain[e]))
    && Stored(bpc, v, ent, chain, dirs, ix.at) && Indexed(ix) && ix.gone == map[] && Spares(ent, ix)
    && Listed(dirs, ix.files)
    && forall k {:trigger ix.files[k]} :: k in ix.files ==> ix.files[k] < |ent| && Scanned(ent[ix.files[k]], dirs, k)
  }

  /** `fat32_init` on a consistent volume, with an empty cache. */
  method MountVolume(geo: Geometry, image: seq<Block>, known: seq<Dirent>, ghost vol: Vol, ghost chains: seq<seq<nat>>,
                     ghost s: S, ghost ix: Index)
      returns (fs: FileSystem)
    requires Rep(geo, image, vol) && vol.fat[0] != 0 && vol.fat[1] != 0
    requires Consistent(geo.bytsPerClus, vol, known, chains, s.dirs, ix)
    requires Inv(s) && forall x :: 0 <= x < s.n && x < |s.ent| ==> s.ent[x].valid == 0
    ensures fresh(fs) && fs.g == geo && fs.blocks == image && fs.v == vol && fs.ent == known && fs.chain == chains
    ensures Whole(fs, s, ix)
  {
    hide Rep, Inv, Stored, FsInv, Disjoint, FileInv;
    fs := new FileSystem(geo, image, known, vol, chains);
    EmptyFiled(geo.bytsPerClus, vol, s, known, chains, ix);
  }

  /**
   Raw writes replace the card while nothing but the root is in use, and `fat32_invalidate` drops the cached entries:
   from the next scan of the root on, cache and new volume belong together.
   */
  method RemountVolume(fs: FileSystem, root: nat, image: seq<Block>, known: seq<Dirent>, ghost vol: Vol,
                       ghost chains: seq<seq<nat>>, ghost s: S, ghost dirs: map<nat, seq<Slot>>, ghost ix: Index)
      returns (ghost t: S)
    requires fs.Valid() && root < |fs.ent| && fs.chain[root] != [] && known != [] && known[0] == Rewound(fs.ent[root])
    requires Rep(fs.g, image, vol) && vol.fat[0] != 0 && vol.fat[1] != 0
    requires Consistent(fs.g.bytsPerClus, vol, known, chains, dirs, ix)
    requires Inv(s) && (forall c :: 0 <= c < s.n ==> s.ent[c].ref == 0) && Tree(dirs, s.ent[s.n].firstClus)
    modifies fs
    ensures t == Invalidated(s, dirs) && Whole(fs, t, ix) && fs.ent == known && fs.v == vol && fs.blocks == image
  {
    hide Rep, Inv, Stored, FsInv, Disjoint, FileInv, Tree, Invalidated, Indexed, Listed, Spares, Scanned;
    EmptiedCache(s, dirs);
    t := Invalidated(s, dirs);
    var _ := fs.Remount(root, image, known, vol, chains);
    EmptyFiled(fs.g.bytsPerClus, vol, t, known, chains, ix);
  }

  lemma EmptiedCache(s: S, dirs: map<nat, seq<Slot>>)
    requires Inv(s) && (forall c :: 0 <= c < s.n ==> s.ent[c].ref == 0) && Tree(dirs, s.ent[s.n].firstClus)
    ensures var t := Invalidated(s, dirs);
      Inv(t) && t.dirs == dirs && forall x :: 0 <= x < t.n && x < |t.ent| ==> t.ent[x].valid == 0
  {
    hide DiskInv, Refs, Lru, Parents, Tree;
    RemountInv(s, dirs);
  }

  lemma EmptyFiled(bpc: nat, v: Vol, s: S, ent: seq<Dirent>, chain: seq<seq<nat>>, ix: Index)
    requires Inv(s) && Consistent(bpc, v, ent, chain, s.dirs, ix)
    requires forall x :: 0 <= x < s.n && x < |s.ent| ==> s.ent[x].valid == 0
    ensures Filed(s, ent, ix)
  {
    hide Scan, DiskInv, Refs, Lru, Parents, Stored, Disjoint, FileInv, IsFile;
  }

  /** A volume on which no update is pending and no removed file is open is consistent, whatever was done to it. */
  lemma Settled(fs: FileSystem, s: S, ix: Index)
    requires Whole(fs, s, ix) && ix.gone == map[] && forall x: nat :: CachedFile(s, x) ==> !s.ent[x].dirty
    ensures Consistent(fs.g.bytsPerClus, fs.v, fs.ent, fs.chain, s.dirs, ix)
  {
    hide Scan, Inv, Stored, Departed, Mirrored, Goners, Rep, Known;
    OwnersApart(fs.g.bytsPerClus, fs.v, fs.ent, fs.chain, fs.owner);
    forall k | k in ix.files
      ensures ix.files[k] < |fs.ent| && Scanned(fs.ent[ix.files[k]], s.dirs, k)
    {
      assert Plays(ix, ix.files[k], FileOf(k));
      assert forall x: nat :: !Pending(s, k, x);
    }
  }

  /** The owner written for cluster `c`, if there is one. */
  ghost function OwnerAt(owner: seq<int>, c: nat): int {
    if c < |owner| then owner[c] else -2
  }

  lemma OwnedBy(owner: seq<int>, e: int, ch: seq<nat>, i: nat)
    requires Owns(owner, e, ch) && i < |ch|
    ensures ch[i] < |owner| && owner[ch[i]] == e
  {
    assert OwnerAt(owner, ch[i]) == e;
  }

  lemma OwnersApart(bpc: nat, v: Vol, ent: seq<Dirent>, chain: seq<seq<nat>>, owner: seq<int>)
    requires FsInv(bpc, v, ent, chain, owner)
    ensures Disjoint(chain) && |chain| == |ent|
    ensures forall e {:trigger ent[e]} :: 0 <= e < |ent| ==> FileInv(bpc, v.fat, ent[e], chain[e])
  {
    hide FileInv, Owns;
    forall e, e', i, j | 0 <= e < |chain| && 0 <= e' < |chain| && 0 <= i < |chain[e]| && 0 <= j < |chain[e']|
        && chain[e][i] == chain[e'][j]
      ensures e == e'
    {
      assert Owns(owner, e, chain[e]) && Owns(owner, e', chain[e']);
      OwnedBy(owner, e, chain[e], i);
      OwnedBy(owner, e', chain[e'], j);
    }
    forall e | 0 <= e < |ent|
      ensures FileInv(bpc, v.fat, ent[e], chain[e])
    {
      assert Owns(owner, e, chain[e]);
    }
  }

  // ---------- What follows for every name and every cluster ----------

  /** Every name of a file, open or not, has a well-formed chain that shares no cluster with any other entry. */
  lemma EveryName(fs: FileSystem, s: S, ix: Index, k: Key)
    requires Whole(fs, s, ix) && IsFile(s.dirs, k)
    ensures k in ix.files && ix.files[k] < |fs.ent|
    ensures var e := ix.files[k];
      && FileInv(fs.g.bytsPerClus, fs.v.fat, fs.ent[e], fs.chain[e])
      && (Scanned(fs.ent[e], s.dirs, k) || exists x: nat :: Pending(s, k, x))
      && forall e', c :: 0 <= e' < |fs.ent| && e' != e && c in fs.chain[e] ==> c !in fs.chain[e']
  {
    hide Scan, Inv, Stored, Departed, Mirrored, Goners, Rep, Known, FileInv;
    assert Plays(ix, ix.files[k], FileOf(k));
    OwnersApart(fs.g.bytsPerClus, fs.v, fs.ent, fs.chain, fs.owner);
    var e := ix.files[k];
    forall e', c | 0 <= e' < |fs.ent| && e' != e && c in fs.chain[e]
      ensures c !in fs.chain[e']
    {
      var i :| 0 <= i < |fs.chain[e]| && fs.chain[e][i] == c;
      assert forall j :: 0 <= j < |fs.chain[e']| ==> fs.chain[e][i] != fs.chain[e'][j];
    }
  }

  /** Two names of files never share a cluster. */
  lemma NamesApart(fs: FileSystem, s: S, ix: Index, k: Key, k': Key)
    requires Whole(fs, s, ix) && IsFile(s.dirs, k) && IsFile(s.dirs, k') && k != k'
    ensures k in ix.files && k' in ix.files && ix.files[k] < |fs.ent| && ix.files[k'] < |fs.ent|
    ensures forall c :: c in fs.chain[ix.files[k]] ==> c !in fs.chain[ix.files[k']]
  {
    EveryName(fs, s, ix, k);
    EveryName(fs, s, ix, k');
    hide Scan, Inv, Stored, Departed, Mirrored, Goners, Rep, Known, FileInv, FsInv, Shown;
    assert Plays(ix, ix.files[k], FileOf(k)) && Plays(ix, ix.files[k'], FileOf(k'));
  }

  /** A cluster in use is in the chain of a directory, of a named file or of a removed open one, or was never known. */
  lemma ClusterAccounted(fs: FileSystem, s: S, ix: Index, c: nat)
    requires Whole(fs, s, ix) && 2 <= c < |fs.v.fat| && c < |fs.owner| && fs.v.fat[c] != 0 && fs.owner[c] != OTHER
    ensures exists e {:trigger ix.role[e]} ::
      0 <= e < |fs.ent| && e < |ix.role| && c in fs.chain[e] && ix.role[e] != Spare && Known(ix, e)
  {
    hide Scan, Inv, Stored, Departed, Files, Goners, Rep, Known;
    var e := fs.owner[c];
    assert c in fs.chain[e];
    assert FileInv(fs.g.bytsPerClus, fs.v.fat, fs.ent[e], fs.chain[e]);
    assert ix.role[e] != Spare;
  }
}
