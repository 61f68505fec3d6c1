/**
 Creating a name (kernel/fs/fat32.c:562-601) and forgetting the cache (kernel/fs/fat32.c:133-145), as
 steps on the state of the entry cache that keep its invariant.
 */
module EntryCreate {
  import opened Bytes
  import opened DirCodec
  import opened DirModel
  import opened DirBytes
  import opened EntryState
  import opened EntryDisk

  // ---------- A new directory ----------

  /** The first cluster of a new directory: "." for itself, ".." for its parent, the rest zero. */
  function FreshDir(f: nat, parent: nat, size: nat): (r: seq<Slot>)
    requires f < U32 && parent < U32 && size >= 2
    ensures |r| == size
  {
    Make(Make(Blank(size), 0, [DotSlot(0, f)]), 1, [DotSlot(1, parent)])
  }

  lemma FreshDirOk(f: nat, parent: nat, size: nat)
    requires f < U32 && parent < U32 && size >= 2
    ensures DirOk(FreshDir(f, parent, size)) && Dotted(FreshDir(f, parent, size))
    ensures IsDirEmpty(FreshDir(f, parent, size)) && NoNames(FreshDir(f, parent, size))
  {
    var r := FreshDir(f, parent, size);
    var a, b := Dot(DotSlot(0, f)), Dot(DotSlot(1, parent));
    var items := [a, b];
    assert r[0] == DotSlot(0, f) && r[1] == DotSlot(1, parent) && forall p :: 2 <= p < size ==> r[p] == Zeros(32);
    hide FreshDir, DotSlot, Parse, Item.Valid;
    DotName(0, f);
    DotName(1, parent);
    assert items[1..] == [b] && items[1..][1..] == [] && items[2..] == [];
    assert Holds(r, 2, items[1..][1..]);
    assert Holds(r, 1, items[1..]);
    assert Holds(r, 0, items);
    assert Unique(items[1..][1..]) && Unique(items[1..]) && Unique(items);
    IsDirEmptyExact(r, items);
    EmptyDir(r);
  }

  /** What is in the first two slots, byte by byte and as `enext` reads it: "." is `f` and ".." is `parent`. */
  ghost predicate DotsIn(slots: seq<Slot>, f: nat, parent: nat) {
    && |slots| >= 2 && DotBytes(slots[0], 1, f) && DotBytes(slots[1], 2, parent)
    && Parse(slots, 0) == DirCodec.Found(1, [46], Info(16, f, 0))
    && Parse(slots, 1) == DirCodec.Found(1, [46, 46], Info(16, parent, 0))
    && forall p {:trigger slots[p]} :: 2 <= p < |slots| ==> slots[p] == Zeros(32)
  }

  lemma FreshDots(f: nat, parent: nat, size: nat)
    requires f < U32 && parent < U32 && size >= 2
    ensures DotsIn(FreshDir(f, parent, size), f, parent)
  {
    var r := FreshDir(f, parent, size);
    assert r[0] == DotSlot(0, f) && r[1] == DotSlot(1, parent) && forall p :: 2 <= p < size ==> r[p] == Zeros(32);
    hide FreshDir, DotSlot, ReadShortName, SlotInfo;
    DotName(0, f);
    DotName(1, parent);
    DotSlotBytes(0, f);
    DotSlotBytes(1, parent);
  }

  // ---------- The disk after a name was made ----------

  /** `dirs'` is the disk after directory `d` was rewritten for `name`, with the directory that was made, if any. */
  ghost predicate Created(dirs: map<nat, seq<Slot>>, dirs': map<nat, seq<Slot>>, d: nat, slots': seq<Slot>,
                          name: seq<byte>) {
    && d in dirs && Searchable(name) && Scan(dirs[d], 0, name).Miss? && Rewrites(dirs[d], slots', name)
    && var r := Scan(slots', 0, name);
       && r.Hit?
       && if IsDir(r.info.attr) then
            var f := r.info.firstClus;
            f !in dirs && f in dirs' && dirs' == dirs[d := slots'][f := dirs'[f]] && DirOk(dirs'[f])
              && Dotted(dirs'[f]) && NoNames(dirs'[f])
          else dirs' == dirs[d := slots']
  }

  /** The only new subdirectory name is the one just made. */
  lemma CreatedRefer(dirs: map<nat, seq<Slot>>, dirs': map<nat, seq<Slot>>, d: nat, slots': seq<Slot>,
                     name: seq<byte>, d': nat, n: seq<byte>, f: nat)
    requires Created(dirs, dirs', d, slots', name) && Refer(dirs', d', n, f)
    ensures Refer(dirs, d', n, f) || (d' == d && n == name && f !in dirs && f in dirs')
  {
    hide DirOk, Dotted;
    var r := Scan(slots', 0, name);
    if d' == d && n != name {
      assert SameHit(Scan(slots', 0, n), Scan(dirs[d], 0, n));
    }
  }

  lemma CreatedTree(dirs: map<nat, seq<Slot>>, dirs': map<nat, seq<Slot>>, root: nat, d: nat, slots': seq<Slot>,
                    name: seq<byte>)
    requires Tree(dirs, root) && Created(dirs, dirs', d, slots', name)
    ensures Tree(dirs', root)
  {
    hide Scan, DirOk, Dotted, Refer;
    forall d', n, f | Refer(dirs', d', n, f)
      ensures Refer(dirs, d', n, f) || (d' == d && n == name && f !in dirs && f in dirs')
    {
      CreatedRefer(dirs, dirs', d, slots', name, d', n, f);
    }
    forall d1, n1, d2, n2, f | Refer(dirs', d1, n1, f) && Refer(dirs', d2, n2, f)
      ensures d1 == d2 && n1 == n2
    {
      if Refer(dirs, d1, n1, f) {
        assert f in dirs;
      }
    }
  }

  /** Making a name changes what no cached entry says. */
  lemma CreatedInv(s: S, dp: nat, slots': seq<Slot>, name: seq<byte>, dirs': map<nat, seq<Slot>>)
    requires Inv(s) && dp <= s.n && s.ent[dp].valid == 1 && IsDir(s.ent[dp].attr)
    requires Created(s.dirs, dirs', s.ent[dp].firstClus, slots', name)
    ensures Inv(s.(dirs := dirs'))
    ensures forall c :: 0 <= c < s.n && s.ent[c].valid == 1 ==> s.ent[c].parent != dp || s.ent[c].name != name
  {
    hide Scan, Refer, DirOk, Dotted, Rewrites;
    var t, d := s.(dirs := dirs'), s.ent[dp].firstClus;
    CreatedTree(s.dirs, dirs', s.ent[s.n].firstClus, d, slots', name);
    SameCore(s, t);
    forall c | 0 <= c < s.n && s.ent[c].valid == 1
      ensures s.ent[c].parent != dp || s.ent[c].name != name
    {
      assert OnDisk(s.ent, s.dirs, c);
    }
    forall c | 0 <= c < t.n && t.ent[c].valid == 1
      ensures OnDisk(t.ent, t.dirs, c)
    {
      CreatedOnDisk(s, dp, slots', name, dirs', c);
    }
    CreatedIds(s, d, slots', name, t);
  }

  lemma CreatedOnDisk(s: S, dp: nat, slots': seq<Slot>, name: seq<byte>, dirs': map<nat, seq<Slot>>, c: nat)
    requires Inv(s) && dp <= s.n && s.ent[dp].valid == 1 && IsDir(s.ent[dp].attr)
    requires Created(s.dirs, dirs', s.ent[dp].firstClus, slots', name)
    requires c < s.n && s.ent[c].valid == 1 && (s.ent[c].parent != dp || s.ent[c].name != name)
    ensures OnDisk(s.ent, dirs', c)
  {
    hide Scan, Refer, DirOk, Dotted, Refs, Lru;
    KeepOnDisk(s, dp, slots', name, c);
    assert OnDisk(s.ent, s.dirs, c);
  }

  lemma CreatedIds(s: S, d: nat, slots': seq<Slot>, name: seq<byte>, t: S)
    requires Shape(s) && DirIds(s) && Created(s.dirs, t.dirs, d, slots', name) && t == s.(dirs := t.dirs)
    ensures DirIds(t)
  {
    hide Scan, Refer, DirOk, Dotted, Rewrites;
    forall c | 0 <= c <= t.n && HasDir(t.ent[c])
      ensures t.ent[c].firstClus in s.dirs && t.ent[c].firstClus in t.dirs
    {
      assert HasDir(s.ent[c]);
    }
    forall c, d', n | 0 <= c < t.n && t.ent[c].valid == -1 && HasDir(t.ent[c])
      ensures !Refer(t.dirs, d', n, t.ent[c].firstClus)
    {
      assert HasDir(s.ent[c]) && !Refer(s.dirs, d', n, s.ent[c].firstClus);
      if Refer(t.dirs, d', n, t.ent[c].firstClus) {
        CreatedRefer(s.dirs, t.dirs, d, slots', name, d', n, t.ent[c].firstClus);
      }
    }
  }

  // ---------- Forgetting the cache ----------

  function Forgotten(e: Entry): Entry { if e.ref == 0 then e.(valid := 0, dirty := false, parent := 0) else e }

  /** `fat32_invalidate`: entries that nobody references are dropped; `dirs` is what the disk holds by then. */
  ghost function Invalidated(s: S, dirs: map<nat, seq<Slot>>): S {
    s.(ent := seq(|s.ent|, k requires 0 <= k < |s.ent| => if k < s.n then Forgotten(s.ent[k]) else s.ent[k]),
       dirs := dirs)
  }

  lemma InvalidatedCore(s: S, dirs: map<nat, seq<Slot>>)
    requires Core(s)
    ensures Core(Invalidated(s, dirs))
  {
    var t := Invalidated(s, dirs);
    forall c | 0 <= c < s.n && Attached(t.ent[c])
      ensures t.ent[c] == s.ent[c] && Attached(s.ent[c]) && s.ent[c].ref > 0 && s.ent[c].parent <= s.n
        && s.ent[s.ent[c].parent].ref > 0
    {
      KidsOrHolders(s, c);
      ParentRef(s, c);
    }
    forall p | 0 <= p <= s.n
      ensures t.ent[p].ref == t.holders[p] + Kids(t.ent, t.n, p)
    {
      KidsSame(s.ent, t.ent, s.n, p);
      assert s.ent[p].ref == s.holders[p] + Kids(s.ent, s.n, p);
    }
  }

  /** Forgetting never harms: every entry that stays is still what a fresh scan finds. */
  lemma InvalidatedInv(s: S)
    requires Inv(s)
    ensures Inv(Invalidated(s, s.dirs))
  {
    hide Scan, Refer, DirOk, Dotted, Refs, Lru;
    var t := Invalidated(s, s.dirs);
    InvalidatedCore(s, s.dirs);
    forall c | 0 <= c < t.n && t.ent[c].valid == 1
      ensures OnDisk(t.ent, t.dirs, c)
    {
      assert OnDisk(s.ent, s.dirs, c);
      KidsOrHolders(s, c);
      ParentRef(s, c);
    }
    forall c | 0 <= c < t.n
      ensures Clean(t.ent[c])
    {
      assert Clean(s.ent[c]);
    }
    forall c, c' | 0 <= c < c' < t.n
      ensures Apart(t.ent[c], t.ent[c'])
    {
      assert Apart(s.ent[c], s.ent[c']);
    }
    forall c | 0 <= c <= s.n && HasDir(t.ent[c])
      ensures HasDir(s.ent[c]) && t.ent[c].firstClus in t.dirs && t.ent[c].firstClus == s.ent[c].firstClus
    {
      assert HasDir(s.ent[c]);
    }
    IdsSame(s, t);
  }

  /**
   What `fat32_invalidate` is for: when no entry but the root is referenced, the disk may have been
   replaced by any other one with the same root cluster.
   */
  lemma RemountInv(s: S, dirs: map<nat, seq<Slot>>)
    requires Inv(s) && Tree(dirs, s.ent[s.n].firstClus)
    requires forall c :: 0 <= c < s.n ==> s.ent[c].ref == 0
    ensures Inv(Invalidated(s, dirs))
  {
    hide Scan, Refer, Tree;
    var t := Invalidated(s, dirs);
    InvalidatedCore(s, dirs);
    assert forall c :: 0 <= c < t.n ==> t.ent[c].valid == 0;
    assert s.ent[s.n].firstClus in dirs by { RootThere(dirs, s.ent[s.n].firstClus); }
    assert forall c {:trigger HasDir(t.ent[c])} :: 0 <= c < t.n ==> !HasDir(t.ent[c]);
  }

  lemma RootThere(dirs: map<nat, seq<Slot>>, root: nat)
    requires Tree(dirs, root)
    ensures root in dirs
  {
  }
}
