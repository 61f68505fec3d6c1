/**
 The entry cache of kernel/fs/fat32.c:385-415, 562-716, 835-938: reference-counted entries in a list
 ordered by use, looked up by parent and name.  Calls are atomic.  The disk is `dirs`, the slots of
 every directory by first cluster; what the slot-level operations do to it is proved in `Directory`.
 */
module EntryCache {
  import opened Bytes
  import opened DirCodec
  import opened DirModel
  import opened EntryState
  import opened EntryDisk
  import opened EntryCreate
  import opened EntryPath

  const ATTR_DIRECTORY: byte := 0x10
  const ATTR_SYSTEM: byte := 0x04
  const ATTR_DEVICE: byte := 0x40

  const BLANK := Entry([], 0, 0, 0, 0, 0, false, 0, 0)

  /** The cache that `fat32_init` sets up satisfies the invariant, whatever tree is on the disk. */
  lemma InitInv(n: nat, rootClus: nat, dirs: map<nat, seq<Slot>>, s: S)
    requires Tree(dirs, rootClus) && s.n == n && s.dirs == dirs && Shape(s)
    requires forall c {:trigger s.ent[c]} :: 0 <= c < n ==> s.ent[c] == BLANK
    requires s.ent[n] == RootEntry(rootClus)
    requires forall c {:trigger s.holders[c]} :: 0 <= c <= n ==> s.holders[c] == 0
    ensures Inv(s)
  {
    hide Tree;
    forall p | 0 <= p <= n
      ensures s.ent[p].ref == s.holders[p] + Kids(s.ent, n, p)
    {
      NoKids(s.ent, n, p);
    }
    RootThere(dirs, rootClus);
    assert forall c {:trigger HasDir(s.ent[c])} :: 0 <= c < n ==> !HasDir(s.ent[c]);
  }

  function RootEntry(rootClus: nat): Entry {
    BLANK.(attr := ATTR_DIRECTORY + ATTR_SYSTEM, firstClus := rootClus, valid := 1)
  }

  lemma InitState(n: nat, rootClus: nat, dirs: map<nat, seq<Slot>>, es: seq<Entry>, l: seq<nat>, p: seq<nat>)
    requires Tree(dirs, rootClus) && |es| == |l| == |p| == n
    requires forall k {:trigger es[k]} {:trigger l[k]} {:trigger p[k]} ::
      0 <= k < n ==> es[k] == BLANK && l[k] == n - 1 - k && p[k] == n - 1 - k
    ensures Inv(S(n, es + [RootEntry(rootClus)], l, dirs, p, seq(n + 1, _ => 0), seq(n + 1, _ => 0)))
  {
    hide Tree;
    var s := S(n, es + [RootEntry(rootClus)], l, dirs, p, seq(n + 1, _ => 0), seq(n + 1, _ => 0));
    assert Shape(s);
    InitInv(n, rootClus, dirs, s);
  }

  lemma {:induction false} NoKids(ent: seq<Entry>, n: nat, p: nat)
    requires n <= |ent| && forall c :: 0 <= c < n ==> ent[c].ref == 0
    ensures Kids(ent, n, p) == 0
  {
    if n > 0 {
      NoKids(ent, n - 1, p);
    }
  }

  // ---------- Whole steps ----------

  predicate Match(e: Entry, dp: nat, name: seq<byte>) {
    e.valid == 1 && e.parent == dp && e.name == name
  }

  /** From `s` to `t` the caller gained a reference to `p`, whose path is `path`; entries in use stayed as they were. */
  ghost predicate Gained(s: S, t: S, p: nat, path: Path) {
    && LiveKept(s, t) && Live(t, p) && PathOf(t, p) == path
    && t.holders == s.holders[p := s.holders[p] + 1]
  }

  /** A cached entry for `name` in `dp` was referenced, as the first loop of `eget` does. */
  ghost predicate HitStep(s: S, t: S, c: nat, dp: nat, name: seq<byte>) {
    && Shape(s) && c < s.n && dp <= s.n && Match(s.ent[c], dp, name) && t == HitOn(s, c)
    && Gained(s, t, c, PathOf(s, dp) + [name])
  }

  /** An unreferenced slot, least recently used and nobody's parent, was taken, as the second loop of `eget` does. */
  ghost predicate TakeStep(s: S, t: S, v: nat) {
    && Shape(s) && v < s.n && IsVictim(s, v) && t == Taken(s, v) && LiveKept(s, t) && Childless(s, v)
       && Childless(t, v) && s.holders[v] == 0
  }

  ghost predicate DupStep(s: S, t: S, p: nat) {
    Shape(s) && p <= s.n && t == Dupped(s, p) && Gained(s, t, p, PathOf(s, p))
  }

  lemma DuppedInv(s: S, p: nat)
    requires Inv(s) && p <= s.n && (p == s.n || Live(s, p))
    ensures Inv(Dupped(s, p)) && DupStep(s, Dupped(s, p), p)
  {
    hide Scan, Refer, Tree;
    DuppedCore(s, p);
    var t := Dupped(s, p);
    KidsOrHolders(s, p);
    hide Refs, Lru, Parents, Cached, DirIds;
    assert Stutter(s, t);
    DiskStutter(s, t);
    forall c | 0 <= c <= s.n
      ensures SameNames(s, t, c)
    {
      assert t.ent[c].name == s.ent[c].name && t.ent[c].valid == s.ent[c].valid;
    }
    PathSame(s, t, p);
  }

  lemma HitInv(s: S, c: nat, dp: nat, name: seq<byte>)
    requires Inv(s) && c < s.n && Match(s.ent[c], dp, name) && Live(s, dp)
    ensures dp <= s.n && Inv(HitOn(s, c)) && HitStep(s, HitOn(s, c), c, dp, name)
  {
    hide Scan, Refer, Tree, Cached, DirIds, Refs, Lru;
    var t := HitOn(s, c);
    HitOnCore(s, c);
    assert Attached(s.ent[c]) && s.rank[dp] < s.rank[c];
    KidsOrHolders(s, c);
    KidsOrHolders(s, dp);
    hide Parents;
    HitStutter(s, c, t);
    assert t.holders == s.holders[c := s.holders[c] + 1];
    hide HitOn;
    DiskStutter(s, t);
    PathSame(s, t, c);
  }

  lemma HitStutter(s: S, c: nat, t: S)
    requires Shape(s) && Parents(s) && c < s.n && s.ent[c].valid == 1 && s.ent[c].ref >= 0 && s.ent[c].parent <= s.n
      && s.ent[c].parent != c
    requires Live(s, s.ent[c].parent) && t == HitOn(s, c) && Shape(t)
    ensures Stutter(s, t) && LiveKept(s, t) && NamesKept(s, t) && Live(t, c)
  {
    hide Parents;
    forall c | 0 <= c <= s.n
      ensures SameNames(s, t, c)
    {
      assert t.ent[c].name == s.ent[c].name && t.ent[c].valid == s.ent[c].valid;
    }
  }

  lemma TakenInv(s: S, v: nat)
    requires Inv(s) && IsVictim(s, v)
    ensures Inv(Taken(s, v)) && TakeStep(s, Taken(s, v), v)
  {
    hide Scan, Refer, Tree, Cached, DirIds;
    TakenCore(s, v);
    hide Refs, Lru, Parents;
    assert Stutter(s, Taken(s, v));
    DiskStutter(s, Taken(s, v));
  }

  /** Giving back a slot that was taken and not filled. */
  lemma UntakenInv(s: S, v: nat)
    requires Inv(s) && v < s.n && s.ent[v].valid == 0 && s.ent[v].ref == 1 && s.holders[v] == 1 && Childless(s, v)
    ensures Inv(Unheld(s, v)) && LiveKept(s, Unheld(s, v))
  {
    hide Scan, Refer, Tree, Cached, DirIds;
    UnheldCore(s, v);
    hide Refs, Lru, Parents;
    assert Stutter(s, Unheld(s, v));
    DiskStutter(s, Unheld(s, v));
  }

  lemma FilledInv(s0: S, s: S, v: nat, dp: nat, e: Entry)
    requires Inv(s0) && TakeStep(s0, s, v) && Inv(s) && Live(s0, dp) && s0.ent[dp].valid == 1 && IsDir(s0.ent[dp].attr)
    requires !e.dirty && Searchable(e.name) && e.firstClus < U32 && e.fileSize < U32
    requires s.ent[dp].firstClus in s.dirs
    requires Scan(s.dirs[s.ent[dp].firstClus], 0, e.name) == Hit(e.off, Info(e.attr, e.firstClus, e.fileSize))
    requires forall c :: 0 <= c < s0.n ==> !Match(s0.ent[c], dp, e.name)
    ensures var t := Filled(s, v, dp, e); Inv(t) && Gained(s0, t, v, PathOf(s0, dp) + [e.name])
  {
    hide Scan, Refer, Tree, Cached, DirIds, Refs, Lru, Parents;
    var t := Filled(s, v, dp, e);
    assert Live(s, dp) && v != dp && s.ent[dp].valid == 1;
    FilledCore(s, v, dp, e);
    FilledDisk(s, v, dp, e);
    hide DiskInv;
    FilledKept(s0, s, v, dp, e, t);
  }

  lemma FilledKept(s0: S, s: S, v: nat, dp: nat, e: Entry, t: S)
    requires Core(s0) && Core(s) && TakeStep(s0, s, v) && Live(s0, dp) && Core(t) && v != dp && t == Filled(s, v, dp, e)
    ensures Gained(s0, t, v, PathOf(s0, dp) + [e.name])
  {
    hide Refs, Lru, Parents, Childless, IsVictim;
    assert s.ent[v].valid == 0 && s.holders[v] == 1;
    assert LiveKept(s, t);
    assert LiveKept(s0, t);
    PathKept(s0, t, dp);
    assert t.holders == s0.holders[v := 1];
    assert t.ent[v].parent == dp && t.rank[dp] < t.rank[v];
  }

  lemma DirThere(s: S, dp: nat)
    requires Inv(s) && dp <= s.n && s.ent[dp].valid == 1 && IsDir(s.ent[dp].attr)
    ensures s.ent[dp].firstClus in s.dirs && DirOk(s.dirs[s.ent[dp].firstClus])
    ensures dp < s.n ==> Dotted(s.dirs[s.ent[dp].firstClus])
  {
    hide Scan, DirOk, Dotted;
    assert HasDir(s.ent[dp]) && HasDir(s.ent[s.n]);
  }

  lemma ScanSound(slots: seq<Slot>, name: seq<byte>)
    requires DirOk(slots) && Searchable(name)
    ensures !Scan(slots, 0, name).Broken?
    ensures Scan(slots, 0, name).Hit? ==> Scan(slots, 0, name).info.Valid()
  {
    hide Scan, Holds;
    var items :| Holds(slots, 0, items) && Unique(items);
    ScanIsLookup(slots, 0, items, name);
    if name in MapOf(items) {
      InfoValid(slots, 0, items, name);
    }
  }

  lemma {:induction false} InfoValid(slots: seq<Slot>, k: nat, items: seq<Item>, name: seq<byte>)
    requires Holds(slots, k, items) && name in MapOf(items)
    ensures MapOf(items)[name].Valid()
    decreases items
  {
    if !(items[0].Long? && items[0].name == name) {
      InfoValid(slots, k + items[0].Len(), items[1..], name);
    }
  }

  // ---------- Putting ----------

  /** From `s` to `t` the caller gave up a reference to `x`; no entry was renamed and no name on disk changed. */
  ghost predicate PutStep(s: S, t: S, x: nat) {
    && NamesKept(s, t) && x <= s.n && t.holders == s.holders[x := s.holders[x] - 1]
    && SameDisk(s, t) && IdleKept(s, t) && Gone(s, t, x)
  }

  /** Entries without references were not touched. */
  ghost predicate IdleKept(s: S, t: S)
    requires Shape(s) && Shape(t) && t.n == s.n
  {
    forall c {:trigger t.ent[c]} :: 0 <= c < s.n && s.ent[c].ref == 0 ==> t.ent[c] == s.ent[c]
  }

  /** With the last reference to a removed entry its clusters went too, and with them the directory it was. */
  ghost predicate Gone(s: S, t: S, x: nat)
    requires Shape(s) && Shape(t) && t.n == s.n && x <= s.n
  {
    x < s.n && s.ent[x].valid == -1 && s.ent[x].ref == 1 ==>
      t.ent[x].firstClus == 0 && t.ent[x].fileSize == 0 && (IsDir(s.ent[x].attr) ==> s.ent[x].firstClus !in t.dirs)
  }

  ghost predicate SameDisk(s: S, t: S)
    requires Shape(s) && Shape(t)
  {
    && t.ent[t.n].firstClus == s.ent[s.n].firstClus
    && KeepTree(s.dirs, t.dirs, s.ent[s.n].firstClus) && t.dirs.Keys <= s.dirs.Keys
  }

  /** The last reference to `x` was dropped and its reference to the parent `p` handed to the caller. */
  ghost predicate LastStep(s: S, t: S, x: nat, p: nat) {
    && NamesKept(s, t) && x < s.n && p <= s.n && x != p
    && t.holders == s.holders[x := s.holders[x] - 1][p := s.holders[p] + 1]
    && SameDisk(s, t) && IdleKept(s, t) && t.ent[x].ref == 0
  }

  lemma PutTrans(s: S, m: S, t: S, x: nat, p: nat)
    requires LastStep(s, m, x, p) && Gone(s, m, x) && PutStep(m, t, p)
    ensures PutStep(s, t, x)
  {
    KeepTreeTrans(s.dirs, m.dirs, t.dirs, s.ent[s.n].firstClus);
    hide KeepTree;
    forall c | 0 <= c <= s.n
      ensures SameNames(s, t, c)
    {
      assert SameNames(m, t, c) && SameNames(s, m, c);
    }
    assert t.holders == s.holders[x := s.holders[x] - 1];
    assert t.ent[x] == m.ent[x];
  }

  lemma KeepTreeSelf(dirs: map<nat, seq<Slot>>, root: nat)
    requires Tree(dirs, root)
    ensures KeepTree(dirs, dirs, root)
  {
    hide Scan, DirOk, Dotted;
    forall d, n | d in dirs && NodeAt(dirs, d, n).Folder?
      ensures NodeAt(dirs, d, n).firstClus in dirs
    {
      assert Refer(dirs, d, n, NodeAt(dirs, d, n).firstClus);
    }
  }

  lemma UnheldInv(s: S, x: nat)
    requires Inv(s) && x <= s.n && s.holders[x] > 0 && (x == s.n || (Attached(s.ent[x]) && s.ent[x].ref != 1))
    ensures Inv(Unheld(s, x)) && PutStep(s, Unheld(s, x), x)
  {
    hide Scan, Refer, Cached, DirIds, KeepTree, Tree;
    var t := Unheld(s, x);
    UnheldCore(s, x);
    assert s.ent[x].ref == s.holders[x] + Kids(s.ent, s.n, x);
    hide Refs, Lru, Parents;
    assert Stutter(s, t);
    DiskStutter(s, t);
    KeepTreeSelf(s.dirs, s.ent[s.n].firstClus);
    forall c | 0 <= c <= s.n
      ensures SameNames(s, t, c)
    {
      assert t.ent[c].name == s.ent[c].name && t.ent[c].valid == s.ent[c].valid;
    }
  }

  /** Rewriting what a directory says about a file keeps all names. */
  lemma FlushedKeeps(dirs: map<nat, seq<Slot>>, root: nat, d: nat, slots': seq<Slot>, name: seq<byte>)
    requires Tree(dirs, root) && d in dirs && Searchable(name) && OthersSame(dirs[d], slots', name)
    requires NodeAt(dirs, d, name) == File && NodeAt(dirs[d := slots'], d, name) == File
    ensures KeepTree(dirs, dirs[d := slots'], root)
  {
    hide Scan, DirOk, Dotted;
    var dirs' := dirs[d := slots'];
    KeepTreeSelf(dirs, root);
    forall e, n | e in dirs'
      ensures NodeAt(dirs', e, n) == NodeAt(dirs, e, n)
    {
      if e == d && n != name && Searchable(n) {
        assert SameHit(Scan(slots', 0, n), Scan(dirs[d], 0, n));
      }
    }
  }

  /** After the last reference to `x` was dropped the caller has to put the parent. */
  ghost predicate Handed(s: S, t: S, x: nat) {
    && Shape(s) && x < s.n && s.ent[x].parent <= s.n && s.rank[s.ent[x].parent] < s.rank[x]
    && LastStep(s, t, x, s.ent[x].parent)
    && t.holders[s.ent[x].parent] > 0 && (s.ent[x].parent == s.n || Attached(t.ent[s.ent[x].parent]))
  }

  /** Dropping the last reference to a cached entry, with nothing left to write. */
  lemma DropCached(s: S, x: nat)
    requires Inv(s) && x < s.n && s.ent[x].valid == 1 && s.ent[x].ref == 1 && s.holders[x] > 0 && !s.ent[x].dirty
    ensures s.ent[x].parent <= s.n && Inv(Dropped(s, x)) && Handed(s, Dropped(s, x), x)
  {
    hide Scan, Tree, Cached, DirIds, Refs, Lru, Parents, KeepTree;
    DroppedCore(s, x);
    var t := Dropped(s, x);
    DroppedDisk(s, x);
    KeepTreeSelf(s.dirs, s.ent[s.n].firstClus);
    hide DiskInv;
    DropHands(s, x, t);
  }

  lemma DropHands(s: S, x: nat, t: S)
    requires Core(s) && x < s.n && Attached(s.ent[x]) && s.ent[x].ref == 1 && s.ent[x].parent <= s.n
      && s.ent[x].parent != x
    requires Shape(t) && t == Dropped(s, x) && KeepTree(s.dirs, t.dirs, s.ent[s.n].firstClus)
    ensures Handed(s, t, x)
  {
    hide Refs, Lru, Parents, KeepTree;
    LiveParent(s, x);
    assert s.holders[s.ent[x].parent] >= 0;
    DroppedNames(s, x, t);
    hide ToFront, FrontPos, NamesKept;
  }

  lemma DroppedNames(s: S, x: nat, t: S)
    requires Shape(s) && x < s.n && s.ent[x].parent <= s.n && Shape(t) && t == Dropped(s, x)
    ensures NamesKept(s, t)
  {
    hide ToFront, FrontPos;
    forall c | 0 <= c <= s.n
      ensures SameNames(s, t, c)
    {
      assert t.ent[c].name == s.ent[c].name && t.ent[c].valid == s.ent[c].valid;
    }
  }

  /**
   From `s` to `t` entry `x` was written back: nothing happened if it had nothing to write; otherwise a scan
   of its directory now finds its cluster and size, and every other name as before.
   */
  ghost predicate WrittenBack(s: S, t: S, x: nat) {
    && Shape(s) && x < s.n
    && if s.ent[x].valid == 1 && s.ent[x].dirty then
         && s.ent[x].parent <= s.n && s.ent[x].name != []
         && var d, e := s.ent[s.ent[x].parent].firstClus, s.ent[x];
            && d in s.dirs && d in t.dirs && Rewrites(s.dirs[d], t.dirs[d], e.name)
            && Scan(t.dirs[d], 0, e.name) == Hit(e.off, Info(e.attr, e.firstClus, e.fileSize))
            && t == s.(ent := s.ent[x := e.(dirty := false)], dirs := s.dirs[d := t.dirs[d]])
       else t == s
  }

  /** Putting the last reference after writing back is putting it. */
  lemma DropWritten(s: S, m: S, x: nat)
    requires Inv(s) && WrittenBack(s, m, x) && Inv(m)
    requires s.ent[x].valid == 1 && s.ent[x].ref == 1 && s.holders[x] > 0
    ensures Shape(m) && m.ent[x].parent <= m.n && Inv(Dropped(m, x)) && Handed(s, Dropped(m, x), x)
  {
    hide Scan, Refs, Lru, Parents, KeepTree, Tree, DirIds, Rewrites;
    DropCached(m, x);
    if s.ent[x].dirty {
      assert Clean(s.ent[x]) && OnDisk(s.ent, s.dirs, x);
      var d := s.ent[s.ent[x].parent].firstClus;
      assert NodeAt(s.dirs, d, s.ent[x].name) == File && NodeAt(m.dirs, d, s.ent[x].name) == File;
      RewritesOthers(s.dirs[d], m.dirs[d], s.ent[x].name);
      FlushedKeeps(s.dirs, s.ent[s.n].firstClus, d, m.dirs[d], s.ent[x].name);
      hide NodeAt, Cached;
      FlushedHands(s, x, m, Dropped(m, x));
    }
  }

  lemma RewritesOthers(slots: seq<Slot>, slots': seq<Slot>, name: seq<byte>)
    requires Rewrites(slots, slots', name)
    ensures OthersSame(slots, slots', name)
  {
  }

  lemma FlushedHands(s: S, x: nat, m: S, t: S)
    requires Shape(s) && Shape(m) && m.n == s.n && x < s.n && s.ent[x].ref == 1 && m.holders == s.holders
      && m.rank == s.rank
    requires m.ent == s.ent[x := s.ent[x].(dirty := false)] && m.dirs.Keys <= s.dirs.Keys
    requires KeepTree(s.dirs, m.dirs, s.ent[s.n].firstClus) && Handed(m, t, x)
    ensures Handed(s, t, x)
  {
    KeepTreeTrans(s.dirs, m.dirs, t.dirs, s.ent[s.n].firstClus);
    hide KeepTree;
    forall c | 0 <= c <= s.n
      ensures SameNames(s, t, c)
    {
      assert SameNames(m, t, c);
    }
  }

  /** Freeing the clusters of a removed entry when its last reference is dropped. */
  lemma DropRemoved(s: S, x: nat)
    requires Inv(s) && x < s.n && s.ent[x].valid == -1 && s.ent[x].ref == 1 && s.holders[x] > 0
    ensures s.ent[x].parent <= s.n && Inv(Truncated(Dropped(s, x), x)) && Handed(s, Truncated(Dropped(s, x), x), x)
    ensures Gone(s, Truncated(Dropped(s, x), x), x)
  {
    hide Scan, Tree, Cached, Refs, Lru, Parents, KeepTree;
    DroppedCore(s, x);
    var m := Dropped(s, x);
    DroppedDisk(s, x);
    forall c | 0 <= c <= s.n && HasDir(m.ent[c]) && IsDir(s.ent[x].attr)
      ensures m.ent[c].firstClus != s.ent[x].firstClus
    {
      assert HasDir(s.ent[c]) && HasDir(s.ent[x]);
    }
    TruncatedInv(m, x);
    KeepTreeSelf(s.dirs, s.ent[s.n].firstClus);
    TruncatedKeeps(s, x);
    DropHands(s, x, m);
    hide DiskInv;
    TruncatedHands(s, x, m, Truncated(m, x));
  }

  lemma TruncatedKeeps(s: S, x: nat)
    requires DiskInv(s) && x < s.n && s.ent[x].valid == -1 && Attached(s.ent[x])
    ensures KeepTree(s.dirs, if IsDir(s.ent[x].attr) then s.dirs - {s.ent[x].firstClus} else s.dirs,
                     s.ent[s.n].firstClus)
  {
    hide Scan, Cached, DirOk, Dotted;
    KeepTreeSelf(s.dirs, s.ent[s.n].firstClus);
    if IsDir(s.ent[x].attr) {
      assert HasDir(s.ent[x]) && HasDir(s.ent[s.n]);
      forall d, n | d in s.dirs && NodeAt(s.dirs, d, n).Folder?
        ensures NodeAt(s.dirs, d, n).firstClus != s.ent[x].firstClus
      {
        assert Refer(s.dirs, d, n, NodeAt(s.dirs, d, n).firstClus);
        assert !Refer(s.dirs, d, n, s.ent[x].firstClus);
      }
    }
  }

  lemma TruncatedHands(s: S, x: nat, m: S, t: S)
    requires Handed(s, m, x) && s.ent[x].ref == 1 && Shape(t) && t == Truncated(m, x) && m.dirs == s.dirs
    requires KeepTree(s.dirs, t.dirs, s.ent[s.n].firstClus)
    ensures Handed(s, t, x)
  {
    hide KeepTree;
    forall c | 0 <= c <= s.n
      ensures SameNames(s, t, c)
    {
      assert SameNames(s, m, c);
    }
  }

  // ---------- Looking up ----------

  datatype Outcome = Got(entry: nat) | NoEntry(off: nat) | Panic

  /**
   What `dirlookup` of `name` in `dp` does: one more reference to the entry on success, none otherwise;
   it fails exactly when a scan of the directory does or the directory was removed, and stops the
   kernel only when `dp` is no directory or every slot of the cache is referenced.
   */
  ghost predicate Looked(s: S, t: S, dp: nat, name: seq<byte>, r: Outcome) {
    && Shape(s) && dp <= s.n && t.dirs == s.dirs && name != []
    && match r
       case Panic => t == s && (!IsDir(s.ent[dp].attr) || forall c :: 0 <= c < s.n ==> s.ent[c].ref > 0)
       case Got(c) =>
         && Gained(s, t, c, Turn(PathOf(s, dp), name)) && IsDir(s.ent[dp].attr)
         && (s.ent[dp].valid == 1 ==> t.ent[c].valid == 1)
         && (name == DOT ==> c == dp) && (name == DOTDOT ==> c == if dp == s.n then dp else s.ent[dp].parent)
         && (Searchable(name) ==> s.ent[dp].valid == 1 && c < t.n && Match(t.ent[c], dp, name))
       case NoEntry(off) =>
         && LiveKept(s, t) && t.holders == s.holders && Searchable(name) && IsDir(s.ent[dp].attr)
         && (s.ent[dp].valid == 1 ==>
               && s.ent[dp].firstClus in s.dirs && Scan(s.dirs[s.ent[dp].firstClus], 0, name) == Miss(off)
               && (forall c :: 0 <= c < t.n ==> !Match(t.ent[c], dp, name))
               && (exists c :: 0 <= c < t.n && t.ent[c].ref == 0))
  }

  lemma DotDotPath(s: S, dp: nat)
    requires Core(s) && Live(s, dp) && dp < s.n
    ensures Live(s, s.ent[dp].parent) && PathOf(s, s.ent[dp].parent) == Turn(PathOf(s, dp), DOTDOT)
    ensures s.ent[dp].valid == 1 ==> s.ent[s.ent[dp].parent].valid == 1
  {
    hide Refs, Lru;
    LiveParent(s, dp);
    assert Attached(s.ent[dp]);
  }

  /** A lookup that took slot `v`, found nothing and gave the slot back. */
  lemma MissLooked(s: S, m: S, v: nat, dp: nat, name: seq<byte>, off: nat)
    requires Inv(s) && Inv(m) && TakeStep(s, m, v) && Live(s, dp) && IsDir(s.ent[dp].attr) && Searchable(name)
    requires s.ent[dp].firstClus in s.dirs && Scan(s.dirs[s.ent[dp].firstClus], 0, name) == Miss(off)
    requires forall c :: 0 <= c < s.n ==> !Match(s.ent[c], dp, name)
    ensures Inv(Unheld(m, v)) && Looked(s, Unheld(m, v), dp, name, NoEntry(off))
  {
    hide Scan, DiskInv, Refs, Lru, Parents;
    UntakenInv(m, v);
    var t := Unheld(m, v);
    assert t.holders == s.holders;
    assert t.ent[v].ref == 0;
    LiveKeptTrans(s, m, t);
  }

  lemma LiveKeptTrans(s: S, m: S, t: S)
    requires LiveKept(s, m) && LiveKept(m, t)
    ensures LiveKept(s, t)
  {
    hide Live;
  }

  method EmptyList(size: nat) returns (es: seq<Entry>, l: seq<nat>)
    ensures |es| == |l| == size
    ensures forall k :: 0 <= k < size ==> es[k] == BLANK && l[k] == size - 1 - k
  {
    es, l := [], [];
    var i := 0;
    while i < size
      invariant i <= size && |es| == |l| == i
      invariant forall k :: 0 <= k < i ==> es[k] == BLANK && l[k] == i - 1 - k
    {
      es, l := es + [BLANK], [i] + l;
      i := i + 1;
    }
  }

  class Cache {
    const n: nat
    var ent: seq<Entry>
    var lru: seq<nat>
    var dirs: map<nat, seq<Slot>>
    /** Where each entry is in `lru`; stands for its links. */
    var pos: seq<nat>
    ghost var holders: seq<int>
    ghost var rank: seq<nat>

    ghost function St(): S
      reads this
    {
      S(n, ent, lru, dirs, pos, holders, rank)
    }

    ghost predicate Valid()
      reads this
    {
      Inv(St())
    }

    /** `fat32_init` (kernel/fs/fat32.c:104-128): nothing is cached; each entry goes to the front of the list. */
    constructor (size: nat, rootClus: nat, disk: map<nat, seq<Slot>>)
      requires Tree(disk, rootClus)
      ensures Valid() && n == size && dirs == disk && ent[n].firstClus == rootClus
      ensures forall c :: 0 <= c <= n ==> holders[c] == 0
    {
      hide Inv, Tree;
      n, dirs := size, disk;
      var es, l := EmptyList(size);
      var p := seq(size, k requires 0 <= k < size => size - 1 - k);
      ent, lru, pos := es + [RootEntry(rootClus)], l, p;
      holders, rank := seq(size + 1, _ => 0), seq(size + 1, _ => 0);
      InitState(size, rootClus, disk, es, l, p);
    }

    /** `eget`: a hit on parent and name, or the least recently used slot that nobody references. */
    method EGet(dp: nat, name: seq<byte>) returns (r: Option<nat>)
      requires Valid() && Live(St(), dp)
      modifies this
      ensures Valid()
      ensures r.None? ==> St() == old(St()) && forall c :: 0 <= c < n ==> ent[c].ref > 0
      ensures r.Some? ==> r.value < n
      ensures r.Some? && Match(old(ent)[r.value], dp, name) ==> HitStep(old(St()), St(), r.value, dp, name)
      ensures r.Some? && !Match(old(ent)[r.value], dp, name) ==>
        TakeStep(old(St()), St(), r.value) && forall c :: 0 <= c < n ==> !Match(old(ent)[c], dp, name)
    {
      hide Scan, Refer, DiskInv, Refs, Lru, Parents, HitStep, TakeStep;
      var i := 0;
      while i < n
        invariant i <= n
        invariant Valid() && St() == old(St())
        invariant forall j {:trigger lru[j]} :: 0 <= j < i ==> !Match(ent[lru[j]], dp, name)
      {
        var ep := lru[i];
        if Match(ent[ep], dp, name) {
          TakeHit(ep, dp, name);
          return Some(ep);
        }
        i := i + 1;
      }
      forall c | 0 <= c < n
        ensures !Match(ent[c], dp, name)
      {
        assert lru[pos[c]] == c;
      }
      r := TakeVictim();
    }

    method TakeHit(ep: nat, ghost dp: nat, ghost name: seq<byte>)
      requires Valid() && Live(St(), dp) && ep < n && Match(ent[ep], dp, name)
      modifies this
      ensures Valid() && HitStep(old(St()), St(), ep, dp, name)
    {
      hide Scan, Refer, DiskInv, Refs, Lru, Parents, HitStep;
      ghost var s := St();
      assert dp <= n;
      HitInv(s, ep, dp, name);
      var e := ent[ep];
      ent := ent[ep := e.(ref := e.ref + 1)];
      if e.ref == 0 {
        ent := ent[e.parent := ent[e.parent].(ref := ent[e.parent].ref + 1)];
      }
      holders := holders[ep := holders[ep] + 1];
      hide Core;
      assert St() == HitOn(s, ep);
    }

    method TakeVictim() returns (r: Option<nat>)
      requires Valid()
      modifies this
      ensures Valid()
      ensures r.None? ==> St() == old(St()) && forall c :: 0 <= c < n ==> ent[c].ref > 0
      ensures r.Some? ==> r.value < n && TakeStep(old(St()), St(), r.value)
    {
      hide Scan, Refer, DiskInv, Refs, Lru, Parents, TakeStep;
      ghost var s := St();
      var i := n;
      while i > 0
        invariant 0 <= i <= n
        invariant Valid() && St() == s
        invariant forall j {:trigger lru[j]} :: i <= j < n ==> ent[lru[j]].ref != 0
      {
        i := i - 1;
        var v := lru[i];
        if ent[v].ref == 0 {
          assert IsVictim(s, v);
          TakenInv(s, v);
          hide IsVictim;
          ent := ent[v := ent[v].(ref := 1, off := 0, valid := 0, dirty := false)];
          holders := holders[v := 1];
          assert St() == Taken(s, v);
          return Some(v);
        }
      }
      forall c | 0 <= c < n
        ensures ent[c].ref > 0
      {
        assert lru[pos[c]] == c;
        KidsOrHolders(s, c);
      }
      r := None;
    }

    /** `edup`. */
    method EDup(p: nat)
      requires Valid() && p <= n && (p == n || Live(St(), p))
      modifies this
      ensures Valid() && DupStep(old(St()), St(), p)
    {
      hide Scan, Refer, DiskInv, Refs, Lru, Parents, DupStep;
      ghost var s := St();
      DuppedInv(s, p);
      ent := ent[p := ent[p].(ref := ent[p].ref + 1)];
      holders := holders[p := holders[p] + 1];
      assert St() == Dupped(s, p);
    }
 
    /**
     `eupdate`: first cluster and size go to the short slot that follows the long ones.  The cache stays in
     step with the disk, where a scan now finds what the entry says.
     */
    method EUpdate(x: nat)
      requires Valid() && x < n
      modifies this`ent, this`dirs
      ensures Valid() && WrittenBack(old(St()), St(), x)
      ensures ent[x].valid == 1 ==> !ent[x].dirty
    {
      hide Scan, Refs, Lru, Parents, DiskInv, Rewrites, Patch, LongCnt;
      var e := ent[x];
      if !e.dirty || e.valid != 1 {
        return;
      }
      ghost var s := St();
      ghost var slots' := DirtySlots(s, x);
      FlushedInv(s, x, slots');
      hide Inv;
      var d := ent[e.parent].firstClus;
      var slots := dirs[d];
      var entcnt := LongCnt(slots[e.off][0] as nat);
      var p := e.off + entcnt;
      var de: Slot := Patch(slots[p], e.firstClus, e.fileSize);
      slots := slots[p := de];
      dirs := dirs[d := slots];
      ent := ent[x := e.(dirty := false)];
      assert St() == Flushed(s, x, slots');
    }

    /**
     The part of `eput` for the last reference, up to putting the parent.  Writing back and moving to the
     front of the list concern different fields, so their order does not matter.
     */
    method PutLast(x: nat)
      requires Valid() && x < n && Attached(ent[x]) && ent[x].ref == 1 && holders[x] > 0
      modifies this
      ensures Valid() && Handed(old(St()), St(), x) && Gone(old(St()), St(), x) && rank == old(rank)
    {
      hide Scan, Refs, Lru, Parents, DiskInv, Handed, WrittenBack, ToFront, FrontPos;
      ghost var s := St();
      if ent[x].valid == -1 {
        DropRemoved(s, x);
        hide Inv;
        var e := ent[x];
        Release(x);
        if IsDir(e.attr) {
          dirs := dirs - {e.firstClus};
        }
        ent := ent[x := ent[x].(fileSize := 0, firstClus := 0, dirty := true)];
        assert St() == Truncated(Dropped(s, x), x);
      } else {
        EUpdate(x);
        WrittenShape(s, St(), x);
        DropWritten(s, St(), x);
        hide Inv;
        Release(x);
      }
    }

    /** To the front of the list, and one reference less; the reference to the parent becomes the caller's. */
    method Release(x: nat)
      requires Shape(St()) && x < n && ent[x].parent <= n && Attached(ent[x]) && ent[x].ref == 1
      modifies this`lru, this`pos, this`ent, this`holders
      ensures St() == Dropped(old(St()), x)
    {
      hide ToFront, FrontPos;
      ghost var p := ent[x].parent;
      lru := ToFront(lru, pos[x]);
      pos := FrontPos(pos, x);
      ent := ent[x := ent[x].(ref := ent[x].ref - 1)];
      holders := holders[x := holders[x] - 1];
      holders := holders[p := holders[p] + 1];
    }

    /** `eput`. */
    method EPut(x: nat)
      requires Valid() && x <= n && holders[x] > 0 && (x == n || Attached(ent[x]))
      modifies this
      ensures Valid() && PutStep(old(St()), St(), x)
      decreases rank[x]
    {
      hide Scan, Refs, Lru, Parents, DiskInv, KeepTree, NamesKept;
      ghost var s := St();
      if x != n && ent[x].valid != 0 && ent[x].ref == 1 {
        var eparent := ent[x].parent;
        PutLast(x);
        ghost var m := St();
        EPut(eparent);
        PutTrans(s, m, St(), x, eparent);
      } else {
        UnheldInv(s, x);
        ent := ent[x := ent[x].(ref := ent[x].ref - 1)];
        holders := holders[x := holders[x] - 1];
        assert St() == Unheld(s, x);
      }
    }

    /** `dirlookup`. */
    method DirLookup(dp: nat, name: seq<byte>) returns (r: Outcome)
      requires Valid() && Live(St(), dp) && name != []
      modifies this
      ensures Valid() && Looked(old(St()), St(), dp, name, r)
    {
      hide Scan, DiskInv, Refs, Lru, Parents, PathOf, Taken, HitOn, TakeStep;
      ghost var s := St();
      assert dp <= n;
      if !IsDir(ent[dp].attr) {
        return Panic;
      }
      if name == DOT {
        EDup(dp);
        return Got(dp);
      } else if name == DOTDOT {
        if dp == n {
          assert PathOf(s, n) == [] by { RootPath(s); }
          EDup(n);
          return Got(n);
        }
        DotDotPath(s, dp);
        var p := ent[dp].parent;
        EDup(p);
        return Got(p);
      }
      if ent[dp].valid != 1 {
        LiveSelf(s);
        return NoEntry(0);
      }
      var got := EGet(dp, name);
      if got == None {
        return Panic;
      }
      var ep := got.value;
      if ent[ep].valid == 1 {
        assert Match(s.ent[ep], dp, name) by { TakenInvalid(s, St(), ep); }
        HitFacts(s, St(), ep, dp, name);
        return Got(ep);
      }
      assert !Match(s.ent[ep], dp, name) by { HitValid(s, St(), ep, dp, name); }
      r := Fill(s, dp, ep, name);
    }

    /** `dirlookup` after a miss in the cache: scan the directory and fill the slot, or give it back. */
    method Fill(ghost s: S, dp: nat, ep: nat, name: seq<byte>) returns (r: Outcome)
      requires Inv(s) && Valid() && TakeStep(s, St(), ep) && Live(s, dp) && Searchable(name)
      requires s.ent[dp].valid == 1 && IsDir(s.ent[dp].attr)
      requires forall c :: 0 <= c < s.n ==> !Match(s.ent[c], dp, name)
      modifies this
      ensures Valid() && Looked(s, St(), dp, name, r)
    {
      hide Scan, DiskInv, Refs, Lru, Parents, PathOf, LiveKept, DirOk, Dotted, Childless, IsVictim, Gained;
      ghost var m := St();
      TakenSame(s, m, ep, dp);
      DirThere(s, dp);
      var slots := dirs[ent[dp].firstClus];
      ScanSound(slots, name);
      match Scan(slots, 0, name)
      case Hit(off, info) =>
        ghost var e :=
            ent[ep].(name := name, attr := info.attr, firstClus := info.firstClus, fileSize := info.fileSize,
                     off := off);
        FilledInv(s, m, ep, dp, e);
        ent :=
          ent[ep := ent[ep].(name := name, attr := info.attr, firstClus := info.firstClus, fileSize := info.fileSize)];
        ent := ent[dp := ent[dp].(ref := ent[dp].ref + 1)];
        ent := ent[ep := ent[ep].(parent := dp, off := off, valid := 1)];
        rank := rank[ep := rank[dp] + 1];
        assert St() == Filled(m, ep, dp, e);
        r := Got(ep);
      case Miss(off) =>
        MissLooked(s, m, ep, dp, name, off);
        ent := ent[ep := ent[ep].(ref := ent[ep].ref - 1)];
        holders := holders[ep := holders[ep] - 1];
        assert St() == Unheld(m, ep);
        r := NoEntry(off);
    }
  }

  lemma LiveSelf(s: S)
    requires Shape(s)
    ensures LiveKept(s, s)
  {
  }

  lemma RootPath(s: S)
    requires Shape(s)
    ensures PathOf(s, s.n) == []
  {
  }

  lemma TakenInvalid(s: S, t: S, v: nat)
    ensures TakeStep(s, t, v) ==> t.ent[v].valid == 0
  {
  }

  lemma HitValid(s: S, t: S, c: nat, dp: nat, name: seq<byte>)
    ensures HitStep(s, t, c, dp, name) ==> t.ent[c].valid == 1
  {
  }

  lemma HitFacts(s: S, t: S, c: nat, dp: nat, name: seq<byte>)
    requires HitStep(s, t, c, dp, name)
    ensures t.dirs == s.dirs && t.n == s.n && Match(t.ent[c], dp, name)
  {
  }

  /** Taking a slot does not touch an entry in use. */
  lemma TakenSame(s: S, m: S, v: nat, dp: nat)
    requires TakeStep(s, m, v) && Live(s, dp)
    ensures v != dp && v < s.n && m.n == s.n && m.ent[dp] == s.ent[dp] && m.dirs == s.dirs
    ensures m.ent[v].valid == 0 && m.ent[v].ref == 1 && m.holders[v] == 1 && !m.ent[v].dirty
  {
  }

  lemma WrittenShape(s: S, t: S, x: nat)
    requires Core(s) && WrittenBack(s, t, x) && s.ent[x].valid == 1
    ensures t.n == s.n && t.holders == s.holders && t.rank == s.rank && t.ent[x].ref == s.ent[x].ref
      && t.ent[x].valid == 1
    ensures t.ent[x].parent == s.ent[x].parent <= s.n
  {
    assert Attached(s.ent[x]);
  }

  lemma DirThere2(s: S, x: nat)
    requires Inv(s) && x < s.n && s.ent[x].valid == 1
    ensures s.ent[x].parent <= s.n
    ensures s.ent[s.ent[x].parent].firstClus in s.dirs && DirOk(s.dirs[s.ent[s.ent[x].parent].firstClus])
  {
    hide Scan, Refs, Lru, Parents, KeepTree, DirOk, Dotted;
    assert OnDisk(s.ent, s.dirs, x);
  }

  /** The slots that `eupdate` leaves in the parent directory. */
  lemma DirtySlots(s: S, x: nat) returns (slots': seq<Slot>)
    requires Inv(s) && x < s.n && s.ent[x].valid == 1
    ensures s.ent[x].parent <= s.n && s.ent[s.ent[x].parent].firstClus in s.dirs && Searchable(s.ent[x].name)
    ensures s.ent[x].firstClus < U32 && s.ent[x].fileSize < U32
    ensures var slots, k := s.dirs[s.ent[s.ent[x].parent].firstClus], s.ent[x].off;
      && k < |slots|
      && var p := k + LongCnt(slots[k][0] as nat);
         p < |slots| && slots' == slots[p := Patch(slots[p], s.ent[x].firstClus, s.ent[x].fileSize)]
    ensures Rewrites(s.dirs[s.ent[s.ent[x].parent].firstClus], slots', s.ent[x].name)
    ensures Scan(slots', 0, s.ent[x].name) ==
      Hit(s.ent[x].off, Info(s.ent[x].attr, s.ent[x].firstClus, s.ent[x].fileSize))
  {
    hide Scan, Refs, Lru, Parents, KeepTree, Rewrites, Patch, DirOk, Dotted, LongCnt;
    DirThere2(s, x);
    assert OnDisk(s.ent, s.dirs, x);
    hide Tree, Cached, DirIds;
    var e := s.ent[x];
    var slots := s.dirs[s.ent[e.parent].firstClus];
    PatchRewrites(slots, e.name, e.firstClus, e.fileSize);
    var p := e.off + LongCnt(slots[e.off][0] as nat);
    slots' := slots[p := Patch(slots[p], e.firstClus, e.fileSize)];
  }
}
