/**
 The FAT32 file layer of kernel/fs/fat32.c: FAT access, cluster allocation, the cached cursor,
 and byte-level reading, writing and truncation of files.  Calls are sequential and atomic;
 a block is read and written whole, which is what the buffer cache provides (see BufferCache).
 */
module Fat32 {
  import opened Bytes
  import opened DivMod
  import opened Fat32Layout
  import opened Fat32Chain

  /** Nonzero words of the FAT area are nonzero entries of the FAT. */
  lemma AllWords(g: Geometry, blocks: seq<Block>, v: Vol, n: nat)
    requires Rep(g, blocks, v) && n <= g.fatSz * 128 && (v.fat[0] != 0 && v.fat[1] != 0)
    requires forall w: nat {:trigger FatWord(g, blocks, w)} :: w < n ==> FatWord(g, blocks, w) != 0
    ensures forall c :: 0 <= c < n && c < |v.fat| ==> v.fat[c] != 0
    ensures n < |v.fat| ==> v.fat[n] == FatWord(g, blocks, n)
  {
    forall c: nat | c < |v.fat|
      ensures v.fat[c] == FatWord(g, blocks, c)
    {
      FatSectorInRange(g, c);
      assert v.fat[c] == FatAt(g, blocks, c);
    }
  }

  class FileSystem {
    const g: Geometry
    var blocks: seq<Block>
    var ent: seq<Dirent>
    ghost var v: Vol
    ghost var chain: seq<seq<nat>>
    ghost var owner: seq<int>

    ghost predicate Valid()
      reads this
    {
      Rep(g, blocks, v) && |chain| == |ent| && FsInv(g.bytsPerClus, v, ent, chain, owner)
    }

    /** A volume with the entries `known`, whose chains have no cluster in common; what else is in use is not known. */
    constructor (geo: Geometry, image: seq<Block>, known: seq<Dirent>, ghost vol: Vol, ghost chains: seq<seq<nat>>)
      requires Rep(geo, image, vol) && vol.fat[0] != 0 && vol.fat[1] != 0
      requires |chains| == |known| && Disjoint(chains)
      requires forall e :: 0 <= e < |known| ==> FileInv(geo.bytsPerClus, vol.fat, known[e], chains[e])
      ensures Valid() && g == geo && blocks == image && v == vol && ent == known && chain == chains
      ensures forall c {:trigger owner[c]} :: 2 <= c < |owner| && owner[c] == OTHER ==> !InSome(chains, c)
    {
      OwnersInv(geo.bytsPerClus, vol, known, chains);
      g := geo;
      blocks := image;
      ent := known;
      v := vol;
      chain := chains;
      owner := Owners(vol.fat, chains);
    }

    /** The bytes of file `e`. */
    ghost function File(e: nat): seq<byte>
      requires Valid() && e < |ent|
      reads this
    {
      EntryReadable(g.bytsPerClus, v, ent, chain, owner, e);
      Content(g.bytsPerClus, v, chain[e], ent[e].fileSize)
    }

    /** The bytes of all clusters of entry `e`, which is what a directory consists of. */
    ghost function Raw(e: nat): seq<byte>
      requires Valid() && e < |ent|
      reads this
    {
      EntryReadable(g.bytsPerClus, v, ent, chain, owner, e);
      Content(g.bytsPerClus, v, chain[e], Cap(|chain[e]|, g.bytsPerClus))
    }

    // ---------- Entries ----------

    /**
     `read_entry_info`, and `fat32_init` for the root: an entry for a file that is on the volume, or for one
     without clusters.  Nobody else may have its chain open.
     */
    method ReadEntryInfo(attribute: nat, firstClus: nat, fileSize: nat, ghost ch: seq<nat>) returns (e: nat)
      requires Valid() && FileInv(g.bytsPerClus, v.fat, EntryOf(attribute, firstClus, fileSize), ch)
        && Owns(owner, OTHER, ch)
      modifies this`ent, this`chain, this`owner
      ensures Valid() && e == |old(ent)| && ent == old(ent) + [EntryOf(attribute, firstClus, fileSize)]
      ensures chain == old(chain) + [ch]
      ensures Readable(g.bytsPerClus, v, ch) && File(e) == Content(g.bytsPerClus, v, ch, fileSize)
      ensures forall x :: 0 <= x < e ==> File(x) == old(File(x)) && Raw(x) == old(Raw(x))
    {
      hide Content;
      AttachInv(g.bytsPerClus, v, ent, chain, owner, EntryOf(attribute, firstClus, fileSize), ch);
      owner := HandOver(owner, ch, |ent|);
      ent, chain := ent + [EntryOf(attribute, firstClus, fileSize)], chain + [ch];
      e := |ent| - 1;
      EntryReadable(g.bytsPerClus, v, ent, chain, owner, e);
    }

    /** The cached entry `e` is recycled: its file stays on the volume, and can be read again. */
    method Forget(e: nat)
      requires Valid() && e < |ent|
      modifies this`ent, this`chain, this`owner
      ensures Valid() && ent == old(ent)[e := EntryOf(0, 0, 0)] && chain == old(chain)[e := []]
      ensures Owns(owner, OTHER, old(chain)[e])
      ensures forall x :: 0 <= x < |ent| && x != e ==> File(x) == old(File(x)) && Raw(x) == old(Raw(x))
    {
      hide Content;
      DetachInv(g.bytsPerClus, v, ent, chain, owner, e, EntryOf(0, 0, 0));
      owner := HandOver(owner, chain[e], OTHER);
      ent, chain := ent[e := EntryOf(0, 0, 0)], chain[e := []];
    }

    // ---------- FAT words ----------

    method ReadFat(cluster: nat) returns (r: nat)
      requires Rep(g, blocks, v)
      ensures r == if cluster >= EOC then cluster else if cluster < |v.fat| then v.fat[cluster] else 0
    {
      if cluster >= EOC {
        return cluster;
      }
      if cluster > g.dataClusCnt + 1 {
        return 0;
      }
      FatSectorInRange(g, cluster);
      var b := blocks[g.FatSecOfClus(cluster)];
      r := Le32(b, g.FatOffsetOfClus(cluster));
      assert r == FatAt(g, blocks, cluster);
    }

    method WriteFat(cluster: nat, content: nat) returns (r: int)
      requires Rep(g, blocks, v) && content < U32
      modifies this`blocks, this`v
      ensures Rep(g, blocks, v)
      ensures r == if cluster < |old(v).fat| then 0 else -1
      ensures v == if r == 0 then old(v).(fat := old(v).fat[cluster := content]) else old(v)
    {
      if cluster > g.dataClusCnt + 1 {
        return -1;
      }
      FatSectorInRange(g, cluster);
      var sec := g.FatSecOfClus(cluster);
      var b: Block := Overwrite(blocks[sec], g.FatOffsetOfClus(cluster), Enc32(content));
      StoreFat(g, blocks, v, cluster, content, b);
      blocks := blocks[sec := b];
      v := v.(fat := v.fat[cluster := content]);
      return 0;
    }

    method ZeroClus(cluster: nat)
      requires Rep(g, blocks, v) && 2 <= cluster < |v.fat|
      modifies this`blocks, this`v
      ensures Rep(g, blocks, v)
      ensures v == old(v).(clus := old(v).clus[cluster := Zeros(g.bytsPerClus)])
    {
      var sec := g.FirstSecOfClus(cluster);
      assert old(v).clus[cluster] == Overwrite(old(v).clus[cluster], 0, []);
      assert v == v.(clus := v.clus[cluster := v.clus[cluster]]);
      var i := 0;
      while i < g.secPerClus
        invariant 0 <= i <= g.secPerClus && sec == g.FirstSecOfClus(cluster) + i
        invariant Rep(g, blocks, v)
        invariant v == old(v).(clus := old(v).clus[cluster := Overwrite(old(v).clus[cluster], 0, Zeros(BSIZE * i))])
      {
        ClusSectorInRange(g, cluster, i);
        var b: Block := Zeros(BSIZE);
        assert b == Overwrite(blocks[sec], 0, b);
        StoreSector(g, blocks, v, cluster, BSIZE * i, b, b);
        blocks := blocks[sec := b];
        v := v.(clus := v.clus[cluster := Overwrite(v.clus[cluster], BSIZE * i, b)]);
        OverwriteMore(old(v).clus[cluster], 0, Zeros(BSIZE * i), b);
        assert Zeros(BSIZE * i) + b == Zeros(BSIZE * (i + 1));
        i, sec := i + 1, sec + 1;
      }
      assert v.clus[cluster] == Zeros(g.bytsPerClus);
    }

    /**
     Take the first zero word of the FAT area.  It belongs to a cluster exactly when a cluster in range is free.
     Otherwise `clus` is the word behind the last cluster that the original takes for one, or the number of
     words in the FAT, which is the panic "no clusters".
     */
    method AllocClus() returns (ok: bool, clus: nat)
      requires Rep(g, blocks, v) && v.fat[0] != 0 && v.fat[1] != 0
      modifies this`blocks, this`v
      ensures Rep(g, blocks, v)
      ensures ok <==> FreeCount(old(v).fat) > 0
      ensures ok ==> IsFree(old(v).fat, clus) && forall c :: 0 <= c < clus ==> old(v).fat[c] != 0
      ensures ok ==> v == Vol(old(v).fat[clus := 268435455], old(v).clus[clus := Zeros(g.bytsPerClus)])
      ensures !ok ==> v == old(v) && blocks == old(blocks) && g.Limit() <= clus <= g.fatSz * 128
      ensures !ok ==> forall w: nat :: w < clus ==> FatWord(g, blocks, w) != 0
      ensures !ok && clus < g.fatSz * 128 ==> FatWord(g, blocks, clus) == 0
    {
      hide Le32;
      FreeExists(v.fat);
      var i, sec := 0, g.rsvdSecCnt;
      while i < g.fatSz
        invariant 0 <= i <= g.fatSz && sec == g.rsvdSecCnt + i
        invariant v == old(v) && blocks == old(blocks)
        invariant forall w: nat {:trigger FatWord(g, blocks, w)} :: w < i * 128 ==> FatWord(g, blocks, w) != 0
      {
        FatSectorInRange(g, i * 128);
        var j := FirstZeroWord(blocks[sec]);
        forall w: nat | i * 128 <= w < i * 128 + 128
          ensures FatWord(g, blocks, w) == Le32(blocks[sec], 4 * (w - i * 128))
        {
        }
        if j < 128 {
          clus := i * 128 + j;
          AllWords(g, blocks, v, clus);
          if clus >= g.Limit() {
            return false, clus;
          }
          assert IsFree(v.fat, clus);
          var _ := WriteFat(clus, LAST_CLUS);
          ZeroClus(clus);
          return true, clus;
        }
        i, sec := i + 1, sec + 1;
      }
      AllWords(g, blocks, v, g.fatSz * 128);
      return false, g.fatSz * 128;
    }

    /** The inner loop of the allocator: the first zero word of a FAT sector, or 128. */
    method FirstZeroWord(b: Block) returns (j: nat)
      ensures j <= 128 && (j < 128 ==> Le32(b, 4 * j) == 0)
      ensures forall k :: 0 <= k < j ==> Le32(b, 4 * k) != 0
    {
      j := 0;
      while j < 128
        invariant j <= 128 && forall k :: 0 <= k < j ==> Le32(b, 4 * k) != 0
      {
        if Le32(b, 4 * j) == 0 {
          return;
        }
        j := j + 1;
      }
    }

    method FreeClus(cluster: nat)
      requires Rep(g, blocks, v)
      modifies this`blocks, this`v
      ensures Rep(g, blocks, v)
      ensures v == if cluster < |old(v).fat| then old(v).(fat := old(v).fat[cluster := 0]) else old(v)
    {
      var _ := WriteFat(cluster, 0);
    }

    // ---------- Bytes of one cluster ----------

    /** One round of the read loop: the bytes from `pos` on that lie in one sector. */
    method ReadSector(cluster: nat, sec: nat, pos: nat, m: nat) returns (piece: seq<byte>)
      requires Rep(g, blocks, v) && 2 <= cluster < |v.fat|
      requires 0 < m && pos % BSIZE + m <= BSIZE && pos + m <= g.bytsPerClus
      requires sec == g.FirstSecOfClus(cluster) + pos / BSIZE
      ensures pos + m <= |v.clus[cluster]| && piece == v.clus[cluster][pos..pos + m]
    {
      hide Cap, FatAt, ClusByte;
      LoadSector(g, blocks, v, cluster, pos, m);
      piece := blocks[sec][pos % BSIZE..pos % BSIZE + m];
    }

    method ReadClus(cluster: nat, off: nat, n: nat) returns (data: seq<byte>)
      requires Rep(g, blocks, v) && 2 <= cluster < |v.fat| && off + n <= g.bytsPerClus
      ensures data == v.clus[cluster][off..off + n]
    {
      ghost var w := v.clus[cluster];
      assert |w| == g.bytsPerClus;
      hide Rep, Geometry.FirstSecOfClus;
      var sec := g.FirstSecOfClus(cluster) + off / BSIZE;
      var o, tot := off % BSIZE, 0;
      data := [];
      while tot < n
        invariant 0 <= tot <= n && 0 <= o && o % BSIZE == (off + tot) % BSIZE
        invariant tot < n ==> sec == g.FirstSecOfClus(cluster) + (off + tot) / BSIZE
        invariant data == w[off..off + tot]
      {
        var m := BSIZE - o % BSIZE;
        if n - tot < m {
          m := n - tot;
        }
        var piece := ReadSector(cluster, sec, off + tot, m);
        SliceJoin(w, off, off + tot, off + tot + m);
        data := data + piece;
        NextSector(off + tot, o, m);
        tot, o, sec := tot + m, o + m, sec + 1;
      }
    }

    /** One round of the write loop: read a sector, copy into it, write it back. */
    method WriteSector(cluster: nat, sec: nat, pos: nat, data: seq<byte>)
      requires Rep(g, blocks, v) && 2 <= cluster < |v.fat|
      requires pos < g.bytsPerClus && pos % BSIZE + |data| <= BSIZE && pos + |data| <= g.bytsPerClus
      requires sec == g.FirstSecOfClus(cluster) + pos / BSIZE
      modifies this`blocks, this`v
      ensures Rep(g, blocks, v)
      ensures v == old(v).(clus := old(v).clus[cluster := Overwrite(old(v).clus[cluster], pos, data)])
    {
      ClusSectorInRange(g, cluster, pos / BSIZE);
      var b: Block := Overwrite(blocks[sec], pos % BSIZE, data);
      StoreSector(g, blocks, v, cluster, pos, data, b);
      blocks := blocks[sec := b];
      v := v.(clus := v.clus[cluster := Overwrite(v.clus[cluster], pos, data)]);
    }

    method WriteClus(cluster: nat, data: seq<byte>, off: nat)
      requires Rep(g, blocks, v) && 2 <= cluster < |v.fat| && off + |data| <= g.bytsPerClus
      modifies this`blocks, this`v
      ensures Rep(g, blocks, v)
      ensures v == old(v).(clus := old(v).clus[cluster := Overwrite(old(v).clus[cluster], off, data)])
    {
      var n := |data|;
      var sec := g.FirstSecOfClus(cluster) + off / BSIZE;
      var o, tot := off % BSIZE, 0;
      ghost var w := v.clus[cluster];
      assert w == Overwrite(w, off, data[..tot]);
      while tot < n
        invariant 0 <= tot <= n && 0 <= o && o % BSIZE == (off + tot) % BSIZE
        invariant tot < n ==> sec == g.FirstSecOfClus(cluster) + (off + tot) / BSIZE
        invariant Rep(g, blocks, v)
        invariant v == old(v).(clus := old(v).clus[cluster := Overwrite(w, off, data[..tot])])
      {
        var m := BSIZE - o % BSIZE;
        if n - tot < m {
          m := n - tot;
        }
        WriteSector(cluster, sec, off + tot, data[tot..tot + m]);
        OverwriteMore(w, off, data[..tot], data[tot..tot + m]);
        assert data[..tot] + data[tot..tot + m] == data[..tot + m];
        NextSector(off + tot, o, m);
        tot, o, sec := tot + m, o + m, sec + 1;
      }
      assert data[..n] == data;
    }

    // ---------- The cursor ----------

    /** Store a new cursor, which must name the `k`-th cluster of the chain. */
    method SetCursor(e: nat, clus: nat, k: nat)
      requires Valid() && e < |ent| && k < |chain[e]| && clus == chain[e][k]
      modifies this`ent
      ensures Valid() && ent == old(ent)[e := CursorAt(old(ent)[e], chain[e], k)]
    {
      MoveCursor(g.bytsPerClus, v, ent, chain, owner, e, k);
      ent := ent[e := ent[e].(curClus := clus, clusCnt := k)];
    }

    /** Allocate a cluster and link it after the last cluster of entry `e`. */
    method LinkNew(e: nat) returns (ok: bool, c: nat)
      requires Valid() && e < |ent| && chain[e] != [] && ent[e].curClus == chain[e][|chain[e]| - 1]
      modifies this`blocks, this`v, this`chain, this`owner
      ensures ok <==> FreeCount(old(v).fat) > 0
      ensures ok ==> IsFree(old(v).fat, c) && Valid() && chain == old(chain)[e := old(chain)[e] + [c]]
      ensures ok ==>
        ent[e].curClus < |old(v).fat|
          && v == Vol(old(v).fat[c := LAST_CLUS][ent[e].curClus := c], old(v).clus[c := Zeros(g.bytsPerClus)])
    {
      assert FileInv(g.bytsPerClus, v.fat, ent[e], chain[e]);
      ok, c := AllocClus();
      if ok {
        var _ := WriteFat(ent[e].curClus, c);
        GrowChain(g.bytsPerClus, old(v), ent, chain, owner, e, c, v);
        chain, owner := chain[e := chain[e] + [c]], owner[c := e];
      }
    }

    /** Walk from the first cluster to the `clusNum`-th. */
    method Rewalk(e: nat, clusNum: nat)
      requires Valid() && e < |ent| && clusNum < |chain[e]|
      modifies this`ent
      ensures Valid() && ent == old(ent)[e := CursorAt(old(ent)[e], chain[e], clusNum)]
    {
      assert FileInv(g.bytsPerClus, v.fat, ent[e], chain[e]);
      SetCursor(e, ent[e].firstClus, 0);
      while ent[e].clusCnt < clusNum
        invariant Valid() && |ent| == |old(ent)| && 0 <= ent[e].clusCnt <= clusNum
        invariant ent == old(ent)[e := CursorAt(old(ent)[e], chain[e], ent[e].clusCnt)]
      {
        assert FileInv(g.bytsPerClus, v.fat, ent[e], chain[e]);
        ChainStep(v.fat, chain[e], ent[e].clusCnt);
        var clus := ReadFat(ent[e].curClus);
        assert clus < EOC;  // the panic "reloc_clus" is unreachable
        SetCursor(e, clus, ent[e].clusCnt + 1);
      }
    }

    /** One round of the forward walk: follow the link, growing the chain at its end if `alloc`. */
    method Advance(e: nat, alloc: bool) returns (ok: bool, end: bool)
      requires Valid() && e < |ent| && chain[e] != []
      modifies this
      ensures ok <==> !alloc || old(ent[e].clusCnt) < |old(chain)[e]| - 1 || FreeCount(old(v).fat) > 0
      ensures ok ==> Valid() && |chain| == |ent| == |old(ent)| && chain == old(chain)[e := chain[e]]
      ensures ok ==> (end <==> !alloc && old(ent[e].clusCnt) == |old(chain)[e]| - 1)
      ensures ok ==> ent[e].clusCnt == (if end then 0 else old(ent[e].clusCnt) + 1) < |chain[e]|
      ensures ok ==> ent == old(ent)[e := CursorAt(old(ent)[e], chain[e], ent[e].clusCnt)]
      ensures ok && chain[e] == old(chain)[e] ==>
        v == old(v) && blocks == old(blocks) && owner == old(owner) && chain == old(chain)
      ensures ok && chain[e] != old(chain)[e] ==>
        && alloc && old(ent[e].clusCnt) == |old(chain)[e]| - 1
        && exists c :: Grown(old(v), old(chain)[e], v, chain[e], c)
    {
      hide Cap, Rep;
      ghost var bpc := g.bytsPerClus;
      assert FileInv(bpc, v.fat, ent[e], chain[e]);
      ChainStep(v.fat, chain[e], ent[e].clusCnt);
      var clus := ReadFat(ent[e].curClus);
      if clus >= EOC {
        if alloc {
          ok, clus := LinkNew(e);
          if !ok {
            return false, false;
          }
          assert Grown(old(v), old(chain)[e], v, chain[e], clus);
        } else {
          SetCursor(e, ent[e].firstClus, 0);
          return true, true;
        }
      }
      SetCursor(e, clus, ent[e].clusCnt + 1);
      return true, false;
    }

    ghost predicate Grown(v0: Vol, ch0: seq<nat>, v1: Vol, ch1: seq<nat>, c: nat) {
      && ch0 != [] && IsFree(v0.fat, c) && c < |v0.clus| && ch0[|ch0| - 1] < |v0.fat|
      && v1 == Vol(v0.fat[c := LAST_CLUS][ch0[|ch0| - 1] := c], v0.clus[c := Zeros(g.bytsPerClus)])
      && ch1 == ch0 + [c]
    }

    /** Walk forward until the cursor is at or past the `clusNum`-th cluster. */
    method WalkForward(e: nat, clusNum: nat, alloc: bool) returns (ok: bool, end: bool)
      requires Valid() && e < |ent| && chain[e] != []
      modifies this
      ensures ok <==> !alloc || |old(chain)[e]| + FreeCount(old(v).fat) > clusNum
      ensures ok ==> Valid() && |chain| == |ent| == |old(ent)| && chain == old(chain)[e := chain[e]]
      ensures ok ==> Extends(g.bytsPerClus, old(v), old(chain)[e], v, chain[e])
      ensures ok && |chain[e]| == |old(chain)[e]| ==>
        v == old(v) && blocks == old(blocks) && owner == old(owner) && chain == old(chain)
      ensures ok && |chain[e]| != |old(chain)[e]| ==> alloc && |chain[e]| == clusNum + 1
      ensures ok ==> (end <==> !alloc && clusNum >= |chain[e]|)
      ensures ok ==> ent[e].clusCnt < |chain[e]| && if end then ent[e].clusCnt == 0 else ent[e].clusCnt >= clusNum
      ensures ok ==> ent == old(ent)[e := CursorAt(old(ent)[e], chain[e], ent[e].clusCnt)]
    {
      hide Quo, Rem, Cap;
      ghost var bpc := g.bytsPerClus;
      assert FileInv(bpc, v.fat, ent[e], chain[e]);
      while clusNum > ent[e].clusCnt
        invariant Valid() && |chain| == |ent| == |old(ent)| && chain == old(chain)[e := chain[e]]
        invariant ent[e].clusCnt < |chain[e]|
        invariant ent == old(ent)[e := CursorAt(old(ent)[e], chain[e], ent[e].clusCnt)]
        invariant Extends(bpc, old(v), old(chain)[e], v, chain[e])
        invariant |chain[e]| == |old(chain)[e]| ==>
          v == old(v) && blocks == old(blocks) && owner == old(owner) && chain == old(chain)
        invariant |chain[e]| != |old(chain)[e]| ==> alloc && ent[e].clusCnt == |chain[e]| - 1 <= clusNum
        decreases clusNum - ent[e].clusCnt
      {
        ghost var v0, ch := v, chain[e];
        assert FileInv(bpc, v0.fat, ent[e], ch);
        ghost var ent1, chain1 := ent, chain;
        ok, end := Advance(e, alloc);
        if !ok {
          return;
        }
        UpdateTwice(old(ent), e, ent1[e], ent[e]);
        UpdateTwice(old(chain), e, chain1[e], chain[e]);
        if end {
          return;
        }
        if chain[e] != ch {
          ghost var c :| Grown(v0, ch, v, chain[e], c);
          ExtendMore(bpc, old(v), old(chain)[e], v0, ch, c, v);
        }
      }
      assert FreeCount(v.fat) + |chain[e]| == FreeCount(old(v).fat) + |old(chain)[e]|;
      return true, false;
    }

    /**
     Move the cursor of entry `e` to the cluster holding offset `off`.  `ok` is false exactly when
     the chain must grow by more clusters than are free.
     */
    method RelocClus(e: nat, off: nat, alloc: bool) returns (ok: bool, r: int)
      requires Valid() && e < |ent| && chain[e] != []
      modifies this
      ensures ok <==> !alloc || |old(chain)[e]| + FreeCount(old(v).fat) > Quo(off, g.bytsPerClus)
      ensures ok ==> Valid() && |chain| == |ent| == |old(ent)| && chain == old(chain)[e := chain[e]]
      ensures ok ==> Extends(g.bytsPerClus, old(v), old(chain)[e], v, chain[e])
      ensures ok && |chain[e]| == |old(chain)[e]| ==>
        v == old(v) && blocks == old(blocks) && owner == old(owner) && chain == old(chain)
      ensures ok && |chain[e]| != |old(chain)[e]| ==> alloc && |chain[e]| == Quo(off, g.bytsPerClus) + 1
      ensures ok ==> (r == -1 <==> !alloc && Quo(off, g.bytsPerClus) >= |old(chain)[e]|)
      ensures ok ==> r == -1 || r == Rem(off, g.bytsPerClus)
      ensures ok ==> ent[e].clusCnt == (if r == -1 then 0 else Quo(off, g.bytsPerClus)) < |chain[e]|
      ensures ok ==> ent == old(ent)[e := CursorAt(old(ent)[e], chain[e], ent[e].clusCnt)]
    {
      hide Quo, Rem, Cap, FsInv, Extends;
      var clusNum := off / g.bytsPerClus;
      AreDivModMul(off, g.bytsPerClus);
      var end;
      ok, end := WalkForward(e, clusNum, alloc);
      if !ok || end {
        return ok, -1;
      }
      if clusNum < ent[e].clusCnt {
        Rewalk(e, clusNum);
      }
      return true, off % g.bytsPerClus;
    }

    /**
     `reloc_clus(entry, 0, 0)` for an entry whose cursor is stale, because the disk was replaced under it: the
     cursor is right again, since one that counts no clusters was never moved.
     */
    method RelocStart(e: nat) returns (r: int)
      requires Rep(g, blocks, v) && e < |ent| == |chain| && chain[e] != []
      requires FsInv(g.bytsPerClus, v, ent[e := Rewound(ent[e])], chain, owner)
      requires ent[e].clusCnt == 0 ==> ent[e].curClus == ent[e].firstClus
      modifies this`ent
      ensures Valid() && ent == old(ent)[e := Rewound(old(ent)[e])] && r == 0
    {
      hide FsInv, Rep;
      var clusNum := 0;
      if clusNum < ent[e].clusCnt {
        ent := ent[e := ent[e].(curClus := ent[e].firstClus, clusCnt := 0)];
      } else {
        assert ent == ent[e := Rewound(ent[e])];
      }
      r := 0;
    }

    /**
     The card was replaced by `image`, which has the entries `known` and the same root: the entry of the root is kept
     with whatever cursor it has, and the next scan of the root, which begins with `reloc_clus(dp, 0, 0)`, puts that
     right.
     */
    method Remount(root: nat, image: seq<Block>, known: seq<Dirent>, ghost vol: Vol, ghost chains: seq<seq<nat>>)
        returns (r: int)
      requires Valid() && root < |ent| && chain[root] != []
      requires Rep(g, image, vol) && vol.fat[0] != 0 && vol.fat[1] != 0
      requires |chains| == |known| > 0 && Disjoint(chains) && known[0] == Rewound(ent[root])
      requires forall e :: 0 <= e < |known| ==> FileInv(g.bytsPerClus, vol.fat, known[e], chains[e])
      modifies this
      ensures Valid() && ent == known && chain == chains && v == vol && blocks == image && r == 0
    {
      OwnersInv(g.bytsPerClus, vol, known, chains);
      assert FileInv(g.bytsPerClus, v.fat, ent[root], chain[root])
        && FileInv(g.bytsPerClus, vol.fat, known[0], chains[0]);
      var stale := ent[root];
      hide FsInv, Disjoint, Rep;
      blocks, v, chain, owner := image, vol, chains, Owners(vol.fat, chains);
      ent := known[0 := stale];
      assert ent[0 := Rewound(ent[0])] == known;
      r := RelocStart(0);
    }

    // ---------- Files ----------

    /** One round of `ewrite`: the part of the data that falls into one cluster. */
    method WriteChunk(e: nat, off: nat, d: seq<byte>, ghost size: nat) returns (ok: bool)
      requires Valid() && e < |ent| && chain[e] != []
      requires 0 < |d| && Rem(off, g.bytsPerClus) + |d| <= g.bytsPerClus
      requires Readable(g.bytsPerClus, v, chain[e]) && off <= size <= Cap(|chain[e]|, g.bytsPerClus)
      modifies this
      ensures ok <==> |old(chain)[e]| + FreeCount(old(v).fat) > Quo(off, g.bytsPerClus)
      ensures ok ==> Valid() && Wrote(old(v), old(ent), old(chain), v, ent, chain, e)
      ensures ok ==> Readable(g.bytsPerClus, v, chain[e]) && Max(off + |d|, size) <= Cap(|chain[e]|, g.bytsPerClus)
      ensures ok ==> |chain[e]| <= Max(|old(chain)[e]|, Quo(off, g.bytsPerClus) + 1)
      ensures ok ==> Spliced(Content(g.bytsPerClus, v, chain[e], Max(off + |d|, size)),
                             old(Content(g.bytsPerClus, v, chain[e], size)), off, d)
    {
      hide Content, Quo, Rem, Cap, FsInv, Extends, Spliced;
      ghost var bpc := g.bytsPerClus;
      EntryReadable(bpc, v, ent, chain, owner, e);
      var r;
      ok, r := RelocClus(e, off, true);
      if !ok {
        return;
      }
      ghost var v1 := v;
      ExtendsKeeps(bpc, old(v), old(ent), old(chain), old(owner), v1, chain[e], e);
      EntryReadable(bpc, v, ent, chain, owner, e);
      ContentFrame(bpc, old(v), v1, old(chain)[e], chain[e], size);
      WriteClus(ent[e].curClus, d, r);
      ContentsFree(bpc, v1, ent, chain, owner, v);
      EntryReadable(bpc, v, ent, chain, owner, e);
      ContentWrite(bpc, v1, v, chain[e], off, d, size);
      WriteKeeps(bpc, v1, ent, chain, owner, v, e, Quo(off, bpc), v.clus[ent[e].curClus]);
      OthersKeptTrans(old(v), v1, v, old(chain), chain, e);
    }

    /** One round of `eread`: the part of the range that lies in one cluster. */
    method ReadChunk(e: nat, off: nat, left: nat, ghost size: nat) returns (piece: seq<byte>)
      requires Valid() && e < |ent| && 0 < left && off + left <= size
      requires Readable(g.bytsPerClus, v, chain[e]) && size <= Cap(|chain[e]|, g.bytsPerClus)
      modifies this
      ensures Valid() && v == old(v) && blocks == old(blocks) && chain == old(chain) && owner == old(owner)
      ensures SameButCursor(old(ent), ent, e) && ent[e].curClus < EOC
      ensures 0 < |piece| <= left && piece == Content(g.bytsPerClus, v, chain[e], size)[off..off + |piece|]
    {
      hide Content, Quo, Rem, Cap, FsInv, Extends;
      QuoBound(off, |chain[e]|, g.bytsPerClus);
      var _, r := RelocClus(e, off, false);
      assert chain[e] == old(chain)[e];
      var m := RestOfCluster(off, left);
      piece := ReadClus(ent[e].curClus, r, m);
      ContentSlice(g.bytsPerClus, v, chain[e], size, off, m);
    }

    /** The loop of `eread`. */
    method ReadLoop(e: nat, off: nat, n: nat, ghost size: nat) returns (dst: seq<byte>)
      requires Valid() && e < |ent| && (n > 0 ==> ent[e].curClus < EOC)
      requires Readable(g.bytsPerClus, v, chain[e]) && off + n <= size <= Cap(|chain[e]|, g.bytsPerClus)
      modifies this
      ensures Valid() && v == old(v) && blocks == old(blocks) && chain == old(chain) && owner == old(owner)
      ensures SameButCursor(old(ent), ent, e)
      ensures dst == Content(g.bytsPerClus, v, chain[e], size)[off..off + n]
    {
      hide Content, Quo, Rem, Cap, FsInv, Rep;
      ghost var file := Content(g.bytsPerClus, v, chain[e], size);
      dst := [];
      var tot, o := 0, off;
      while ent[e].curClus < EOC && tot < n
        invariant 0 <= tot <= n && o == off + tot
        invariant Valid() && v == old(v) && blocks == old(blocks) && chain == old(chain) && owner == old(owner)
        invariant SameButCursor(old(ent), ent, e)
        invariant dst == file[off..o]
        invariant tot < n ==> ent[e].curClus < EOC
        decreases n - tot
      {
        ghost var ent1 := ent;
        var piece := ReadChunk(e, o, n - tot, size);
        SameButCursorTrans(old(ent), ent1, ent, e);
        SliceJoin(file, off, o, o + |piece|);
        dst := dst + piece;
        tot, o := tot + |piece|, o + |piece|;
      }
    }

    /**
     Read `n` bytes at `off` from file `e`.  The result is the slice of the file, cut at its end;
     reading moves the cursor and nothing else.
     */
    method ERead(e: nat, off: nat, n: nat) returns (dst: seq<byte>)
      requires Valid() && e < |ent| && off < U32 && n < U32
      modifies this
      ensures Valid() && v == old(v) && blocks == old(blocks) && chain == old(chain) && owner == old(owner)
      ensures SameButCursor(old(ent), ent, e)
      ensures dst ==
        if off > |old(File(e))| || off + n > 4294967295 || old(ent)[e].attribute / 16 % 2 == 1 then []
        else if off + n > |old(File(e))| then old(File(e))[off..]
        else old(File(e))[off..off + n]
    {
      hide Content, Quo, Rem, Cap, FsInv;
      EntryReadable(g.bytsPerClus, v, ent, chain, owner, e);
      if off > ent[e].fileSize || off + n >= U32 || IsDirectory(ent[e].attribute) {
        return [];
      }
      var n := if off + n > ent[e].fileSize then ent[e].fileSize - off else n;
      dst := ReadLoop(e, off, n, ent[e].fileSize);
    }

    /** Give entry `e` a first cluster if it has none. */
    method FirstCluster(e: nat) returns (ok: bool)
      requires Valid() && e < |ent|
      modifies this
      ensures ok <==> |old(chain)[e]| + FreeCount(old(v).fat) > 0
      ensures ok ==> Valid() && |chain| == |ent| == |old(ent)| && chain == old(chain)[e := chain[e]] && chain[e] != []
      ensures ok ==> old(chain)[e] <= chain[e] && |chain[e]| <= Max(|old(chain)[e]|, 1)
      ensures ok ==> FreeCount(v.fat) + |chain[e]| == FreeCount(old(v).fat) + |old(chain)[e]|
      ensures ok ==> ent[e].fileSize == old(ent)[e].fileSize && ent[e].attribute == old(ent)[e].attribute
      ensures ok ==> ent == old(ent)[e := ent[e]] && Touched(old(ent)[e], ent[e])
      ensures ok ==> OthersKept(old(v), v, old(chain), e) && File(e) == old(File(e))
      ensures ok && old(chain)[e] == [] ==>
        IsFree(old(v).fat, chain[e][0]) && Raw(e) == Zeros(|Raw(e)|) && |Raw(e)| == g.bytsPerClus
    {
      hide Content, Quo, Rem, Cap;
      ghost var bpc := g.bytsPerClus;
      EntryReadable(bpc, v, ent, chain, owner, e);
      if ent[e].firstClus == 0 {
        var c;
        ok, c := AllocClus();
        if ok {
          StartChain(bpc, old(v), ent, chain, owner, e, c);
          AllocKeeps(bpc, old(v), ent, chain, owner, v, e, c);
          FreeAfter(old(v).fat, v.fat, c);
          ent := ent[e := ent[e].(firstClus := c, curClus := c, clusCnt := 0, dirty := true)];
          chain, owner := chain[e := [c]], owner[c := e];
          EntryReadable(bpc, v, ent, chain, owner, e);
          OneClusterRaw(bpc, v, c);
        }
      } else {
        ok := true;
        SelfKept(bpc, v, ent, chain, owner, e);
      }
    }

    /** One round of the loop of `ewrite`, seen from the state `v0, ent0, chain0` in which the loop began. */
    method WriteRound(e: nat, src: seq<byte>, tot: nat, off: nat, ghost file: seq<byte>, ghost sz: nat,
                      ghost v0: Vol, ghost ent0: seq<Dirent>, ghost chain0: seq<seq<nat>>) returns (ok: bool, m: nat)
      requires Valid() && e < |ent| && chain[e] != [] && Wrote(v0, ent0, chain0, v, ent, chain, e)
      requires tot < |src| && off + tot <= sz <= Cap(|chain[e]|, g.bytsPerClus)
      requires Readable(g.bytsPerClus, v, chain[e])
      requires Spliced(Content(g.bytsPerClus, v, chain[e], sz), file, off, src[..tot])
      modifies this
      ensures ok <==> |chain0[e]| + FreeCount(v0.fat) > Quo(off + tot, g.bytsPerClus)
      ensures 0 < m <= |src| - tot && Rem(off + tot, g.bytsPerClus) + m <= g.bytsPerClus
      ensures ok ==> Valid() && Wrote(v0, ent0, chain0, v, ent, chain, e)
      ensures ok ==> |chain[e]| <= Max(|old(chain)[e]|, Quo(off + tot, g.bytsPerClus) + 1)
      ensures ok ==> Readable(g.bytsPerClus, v, chain[e])
      ensures ok ==>
        && Max(off + tot + m, sz) <= Cap(|chain[e]|, g.bytsPerClus)
        && Spliced(Content(g.bytsPerClus, v, chain[e], Max(off + tot + m, sz)), file, off, src[..tot + m])
    {
      hide Content, Quo, Rem, Cap, FsInv, Rep, Spliced;
      var o := off + tot;
      m := RestOfCluster(o, |src| - tot);
      var d := src[tot..tot + m];
      ghost var c := Content(g.bytsPerClus, v, chain[e], sz);
      ok := WriteChunk(e, o, d, sz);
      if ok {
        SpliceMore(file, off, src, tot, tot + m, c, Content(g.bytsPerClus, v, chain[e], Max(o + m, sz)));
        WroteTrans(v0, ent0, chain0, old(v), old(ent), old(chain), v, ent, chain, e);
      }
    }

    /** The loop of `ewrite`. */
    method WriteLoop(e: nat, src: seq<byte>, off: nat, ghost size: nat) returns (ok: bool)
      requires Valid() && e < |ent| && chain[e] != [] && 0 < |src|
      requires Readable(g.bytsPerClus, v, chain[e]) && off <= size <= Cap(|chain[e]|, g.bytsPerClus)
      modifies this
      ensures ok <==> |old(chain)[e]| + FreeCount(old(v).fat) > Quo(off + |src| - 1, g.bytsPerClus)
      ensures ok ==> Valid() && Wrote(old(v), old(ent), old(chain), v, ent, chain, e)
      ensures ok ==> |chain[e]| <= Max(|old(chain)[e]|, Quo(off + |src| - 1, g.bytsPerClus) + 1)
      ensures ok ==> Readable(g.bytsPerClus, v, chain[e])
      ensures ok ==>
        && Max(off + |src|, size) <= Cap(|chain[e]|, g.bytsPerClus)
        && Spliced(Content(g.bytsPerClus, v, chain[e], Max(off + |src|, size)),
                   old(Content(g.bytsPerClus, v, chain[e], size)), off, src)
    {
      hide Content, Quo, Rem, Cap, FsInv, Rep;
      ghost var bpc := g.bytsPerClus;
      SelfKept(bpc, v, ent, chain, owner, e);
      ghost var file := Content(bpc, v, chain[e], size);
      var n, tot := |src|, 0;
      ok := true;
      while tot < n
        invariant 0 <= tot <= n && ok
        invariant Valid() && Wrote(old(v), old(ent), old(chain), v, ent, chain, e)
        invariant |chain[e]| <= Max(|old(chain)[e]|, Quo(off + n - 1, bpc) + 1)
        invariant Readable(bpc, v, chain[e]) && Max(off + tot, size) <= Cap(|chain[e]|, bpc)
        invariant Spliced(Content(bpc, v, chain[e], Max(off + tot, size)), file, off, src[..tot])
      {
        var m;
        QuoMono(off + tot, off + n - 1, bpc);
        ok, m := WriteRound(e, src, tot, off, file, Max(off + tot, size), old(v), old(ent), old(chain));
        if !ok {
          return;
        }
        tot := tot + m;
      }
      assert src[..n] == src;
      QuoBound(off + n - 1, |chain[e]|, bpc);
    }

    /** How many of `left` bytes from `off` on lie in the cluster of `off`. */
    method RestOfCluster(off: nat, left: nat) returns (m: nat)
      requires g.bytsPerClus > 0
      ensures m == if left < g.bytsPerClus - Rem(off, g.bytsPerClus) then left
        else g.bytsPerClus - Rem(off, g.bytsPerClus)
    {
      AreDivModMul(off, g.bytsPerClus);
      m := g.bytsPerClus - off % g.bytsPerClus;
      if left < m {
        m := left;
      }
    }

    /**
     Write `src` at `off` into file `e`.  `ok` is false exactly when the file needs more clusters than
     are free.  On success the file is the old one with `src` spliced in, and no other entry changed.
     */
    method EWrite(e: nat, src: seq<byte>, off: nat) returns (ok: bool, r: int)
      requires Valid() && e < |ent| && off < U32 && |src| < U32
      modifies this
      ensures old(EWriteRefused(e, off, |src|)) ==> ok && r == -1 && St() == old(St())
      ensures !old(EWriteRefused(e, off, |src|)) ==>
        (ok <==> |old(chain)[e]| + FreeCount(old(v).fat)
                 > if |src| == 0 then 0 else Quo(off + |src| - 1, g.bytsPerClus))
      ensures ok && !old(EWriteRefused(e, off, |src|)) ==>
        && r == |src| && Valid() && |ent| == |old(ent)|
        && File(e) == Splice(old(File(e)), off, src)
        && old(chain)[e] <= chain[e] && ent[e].attribute == old(ent)[e].attribute && Touched(old(ent)[e], ent[e])
        && |chain[e]| <= Max(|old(chain)[e]|, 1 + if |src| == 0 then 0 else Quo(off + |src| - 1, g.bytsPerClus))
        && forall x :: 0 <= x < |ent| && x != e ==>
             ent[x] == old(ent)[x] && chain[x] == old(chain)[x] && File(x) == old(File(x)) && Raw(x) == old(Raw(x))
    {
      hide Content, Quo, Rem, Cap, FsInv;
      if off > ent[e].fileSize || off + |src| >= U32 || IsReadOnly(ent[e].attribute) {
        return true, -1;
      }
      ghost var file := File(e);
      ok := FirstCluster(e);
      if !ok {
        return false, -1;
      }
      ghost var v1, chain1 := v, chain;
      EntryReadable(g.bytsPerClus, v, ent, chain, owner, e);
      if |src| > 0 {
        ok := WriteLoop(e, src, off, ent[e].fileSize);
        if !ok {
          return false, -1;
        }
        OthersKeptTrans(old(v), v1, v, old(chain), chain1, e);
        UpdateTwice(old(chain), e, chain1[e], chain[e]);
        if off + |src| > ent[e].fileSize {
          SetSize(e, off + |src|);
        }
      } else {
        assert Spliced(file, file, off, src);
      }
      r := |src|;
      SplicedIsSplice(File(e), file, off, src);
      OthersSee(g.bytsPerClus, old(v), old(ent), old(chain), old(owner), v, ent, chain, owner, e);
    }

    ghost predicate EWriteRefused(e: nat, off: nat, n: nat)
      requires e < |ent|
      reads this
    {
      off > ent[e].fileSize || off + n > 4294967295 || ent[e].attribute % 2 == 1
    }

    ghost function St(): (Vol, seq<Block>, seq<Dirent>, seq<seq<nat>>, seq<int>)
      reads this
    {
      (v, blocks, ent, chain, owner)
    }

    method SetSize(e: nat, size: nat)
      requires Valid() && e < |ent| && chain[e] != [] && size <= Cap(|chain[e]|, g.bytsPerClus) && size < U32
      modifies this`ent
      ensures Valid() && ent == old(ent)[e := old(ent)[e].(fileSize := size, dirty := true)]
    {
      assert FileInv(g.bytsPerClus, v.fat, ent[e], chain[e]);
      Resize(g.bytsPerClus, v, ent, chain, owner, e, size);
      ent := ent[e := ent[e].(fileSize := size, dirty := true)];
    }

    /** The loop of `etrunc`.  It ends whatever the FAT holds: cycles, cross links, links out of range. */
    method ClearLinks(first: nat)
      requires Rep(g, blocks, v)
      modifies this`blocks, this`v
      ensures Rep(g, blocks, v) && v == old(v).(fat := Cleared(old(v).fat, first))
    {
      var clus: nat := first;
      while clus >= 2 && clus < EOC
        invariant Rep(g, blocks, v) && |v.fat| == |old(v).fat| && v.clus == old(v).clus
        invariant Cleared(v.fat, clus) == Cleared(old(v).fat, first)
        decreases UsedCount(v.fat), if 2 <= clus < |v.fat| then 1 else 0, if 2 <= clus < EOC then 1 else 0
      {
        if clus < |v.fat| {
          UsedDrops(v.fat, clus);
        }
        var next := ReadFat(clus);
        FreeClus(clus);
        clus := next;
      }
    }

    /** Truncating an entry empties it, frees exactly its chain and changes no other entry. */
    method ETrunc(e: nat)
      requires Valid() && e < |ent|
      modifies this
      ensures Valid() && |ent| == |old(ent)| && File(e) == [] && chain == old(chain)[e := []]
      ensures ent == old(ent)[e := old(ent)[e].(firstClus := 0, fileSize := 0, dirty := true)]
      ensures v.clus == old(v).clus && |v.fat| == |old(v).fat|
      ensures forall c :: 0 <= c < |v.fat| ==> v.fat[c] == if c in old(chain)[e] then 0 else old(v).fat[c]
      ensures forall x :: 0 <= x < |ent| && x != e ==> File(x) == old(File(x)) && Raw(x) == old(Raw(x))
    {
      ghost var ch := chain[e];
      assert FileInv(g.bytsPerClus, v.fat, ent[e], ch);
      ClearLinks(ent[e].firstClus);
      if ch != [] {
        ClearedChain(old(v).fat, ch);
      }
      ghost var ow := owner;
      ghost var owner' := seq(|ow|, c requires 0 <= c < |ow| => if ow[c] == e then FREE else ow[c]);
      DropChain(g.bytsPerClus, old(v), ent, chain, owner, e, owner');
      assert v.fat == Released(old(v).fat, ch);
      SelfKept(g.bytsPerClus, old(v), ent, chain, owner, e);
      ent := ent[e := ent[e].(firstClus := 0, fileSize := 0, dirty := true)];
      chain, owner := chain[e := []], owner';
      assert OthersKept(old(v), v, old(chain), e) by { TruncKeeps(old(v), v, old(chain), e); }
      OthersSee(g.bytsPerClus, old(v), old(ent), old(chain), old(owner), v, ent, chain, owner, e);
    }
  }
}
