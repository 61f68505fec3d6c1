/**
 How a FAT32 volume is laid out over 512-byte blocks (kernel/fs/fat32.c:41-192), and the
 two tables that the rest of the file system is about: the FAT words and the data clusters.
 */
module Fat32Layout {
  import opened Bytes
  import opened DivMod

  const BSIZE := 512
  const EOC := 0x0fff_fff8

  /** The fields of `fat` (kernel/fs/fat32.c:41-58). */
  datatype Geometry = Geometry(
    firstDataSec: nat, dataClusCnt: nat, bytsPerClus: nat,
    secPerClus: nat, rsvdSecCnt: nat, fatSz: nat, totSec: nat)
  {
    predicate Valid() {
      && 1 <= secPerClus < 256 && bytsPerClus == secPerClus * BSIZE
      && 1 <= rsvdSecCnt && rsvdSecCnt + fatSz <= firstDataSec
      && firstDataSec + Cap(dataClusCnt, secPerClus) <= totSec < U32
      && dataClusCnt + 2 <= fatSz * 128
      && dataClusCnt + 1 < EOC
    }

    /** One more than the largest cluster number. */
    function Limit(): nat { dataClusCnt + 2 }

    function FirstSecOfClus(c: nat): nat
      requires c >= 2
    {
      Cap(c - 2, secPerClus) + firstDataSec
    }

    function FatSecOfClus(c: nat): nat { rsvdSecCnt + 4 * c / BSIZE }

    function FatOffsetOfClus(c: nat): nat { 4 * c % BSIZE }
  }

  /**
   The geometry that `fat32_init` computes from the boot parameter block in 32-bit arithmetic
   (kernel/fs/fat32.c:80-92).  Sectors of another size than a block are the panic at line 105.
   */
  function FromBpb(bytsPerSec: nat, secPerClus: nat, rsvdSecCnt: nat, fatCnt: nat, fatSz: nat, totSec: nat)
      : Option<Geometry>
    requires secPerClus >= 1
  {
    if bytsPerSec != BSIZE then None else
      var firstDataSec := (rsvdSecCnt + fatCnt * fatSz) % U32;
      var dataSecCnt := (totSec - firstDataSec) % U32;
      Some(Geometry(firstDataSec, dataSecCnt / secPerClus, secPerClus * bytsPerSec,
                    secPerClus, rsvdSecCnt, fatSz, totSec))
  }

  /**
   The FAT and all data clusters lie inside the volume, and every cluster has its FAT entry, exactly when the data area
   begins behind the first FAT and inside the volume, and the FAT is long enough; then less than a cluster is wasted.
   */
  lemma FromBpbExactly(secPerClus: nat, rsvdSecCnt: nat, fatCnt: nat, fatSz: nat, totSec: nat)
    requires 1 <= secPerClus < 256 && totSec < U32
    ensures var g, first := FromBpb(BSIZE, secPerClus, rsvdSecCnt, fatCnt, fatSz, totSec).value,
                            (rsvdSecCnt + fatCnt * fatSz) % U32;
      && (g.Valid() <==>
          && 1 <= rsvdSecCnt && rsvdSecCnt + fatSz <= first <= totSec
          && (totSec - first) / secPerClus + 2 <= fatSz * 128 && (totSec - first) / secPerClus + 1 < EOC)
      && (g.Valid() ==> totSec - secPerClus < g.firstDataSec + Cap(g.dataClusCnt, secPerClus))
  {
    var g := FromBpb(BSIZE, secPerClus, rsvdSecCnt, fatCnt, fatSz, totSec).value;
    var data := (totSec - g.firstDataSec) % U32;
    QuoRem(data, secPerClus);
    AreDivModMul(data, secPerClus);
    if totSec < g.firstDataSec {
      assert data == totSec - g.firstDataSec + U32;
    }
  }

  type Block = b: seq<byte> | |b| == BSIZE witness Zeros(BSIZE)

  /** The volume as its users see it: FAT words and cluster contents, indexed by cluster number. */
  datatype Vol = Vol(fat: seq<nat>, clus: seq<seq<byte>>)

  function FatAt(g: Geometry, blocks: seq<Block>, c: nat): nat
    requires g.Valid() && |blocks| == g.totSec && c < g.Limit()
  {
    FatSectorInRange(g, c);
    Le32(blocks[g.FatSecOfClus(c)], g.FatOffsetOfClus(c))
  }

  /** Word number `w` of the FAT area, which may go on behind the last cluster. */
  function FatWord(g: Geometry, blocks: seq<Block>, w: nat): nat
    requires g.Valid() && |blocks| == g.totSec && w < g.fatSz * 128
  {
    FatSectorInRange(g, w);
    Le32(blocks[g.rsvdSecCnt + w / 128], 4 * (w % 128))
  }

  function ClusByte(g: Geometry, blocks: seq<Block>, c: nat, i: nat): byte
    requires g.Valid() && |blocks| == g.totSec && 2 <= c < g.Limit() && i < g.bytsPerClus
  {
    ClusSectorInRange(g, c, i / BSIZE);
    blocks[g.FirstSecOfClus(c) + i / BSIZE][i % BSIZE]
  }

  /** `v` is what `blocks` hold.  The triggers keep this definition out of proofs that only use `v`. */
  ghost predicate Rep(g: Geometry, blocks: seq<Block>, v: Vol) {
    && g.Valid() && |blocks| == g.totSec
    && |v.fat| == g.Limit() && |v.clus| == g.Limit()
    && (forall c {:trigger FatAt(g, blocks, c)} :: 0 <= c < g.Limit() ==> v.fat[c] == FatAt(g, blocks, c))
    && (forall c {:trigger v.clus[c]} :: 2 <= c < g.Limit() ==> |v.clus[c]| == g.bytsPerClus)
    && (forall c, i {:trigger ClusByte(g, blocks, c, i)} ::
          2 <= c < g.Limit() && 0 <= i < g.bytsPerClus ==> v.clus[c][i] == ClusByte(g, blocks, c, i))
  }

  lemma FatSectorInRange(g: Geometry, c: nat)
    requires g.Valid() && c < g.fatSz * 128
    ensures g.FatSecOfClus(c) == g.rsvdSecCnt + c / 128
    ensures g.FatOffsetOfClus(c) == 4 * (c % 128)
    ensures g.FatSecOfClus(c) < g.firstDataSec <= g.totSec
  {
  }

  lemma ClusSectorInRange(g: Geometry, c: nat, k: nat)
    requires g.Valid() && 2 <= c < g.Limit() && k < g.secPerClus
    ensures g.firstDataSec <= g.FirstSecOfClus(c) + k < g.totSec
  {
    CapMono(c - 2, g.dataClusCnt, g.secPerClus);
  }

  /** Sectors of different clusters never coincide. */
  lemma SectorOwner(g: Geometry, c: nat, k: nat, c': nat, k': nat)
    requires 2 <= c && 2 <= c' && k < g.secPerClus && k' < g.secPerClus
    requires g.FirstSecOfClus(c) + k == g.FirstSecOfClus(c') + k'
    ensures c == c' && k == k'
  {
    QuoUnique(c - 2, k, g.secPerClus);
    QuoUnique(c' - 2, k', g.secPerClus);
  }

  /** Storing one FAT word changes that word and nothing else. */
  lemma StoreFat(g: Geometry, blocks: seq<Block>, v: Vol, c: nat, content: nat, b: Block)
    requires Rep(g, blocks, v) && c < g.Limit() && content < U32
    requires g.FatSecOfClus(c) < |blocks| && g.FatOffsetOfClus(c) + 4 <= BSIZE
    requires b == Overwrite(blocks[g.FatSecOfClus(c)], g.FatOffsetOfClus(c), Enc32(content))
    ensures Rep(g, blocks[g.FatSecOfClus(c) := b], v.(fat := v.fat[c := content]))
  {
    FatSectorInRange(g, c);
    var blocks' := blocks[g.FatSecOfClus(c) := b];
    forall c': nat | c' < g.Limit()
      ensures FatAt(g, blocks', c') == if c' == c then content else FatAt(g, blocks, c')
    {
      FatSectorInRange(g, c');
      var o, o' := g.FatOffsetOfClus(c), g.FatOffsetOfClus(c');
      if c' == c {
        assert forall i :: 0 <= i < 4 ==> b[o + i] == Enc32(content)[i];
      } else if g.FatSecOfClus(c') == g.FatSecOfClus(c) {
        assert o' + 4 <= o || o + 4 <= o';
      }
    }
    forall c', i: nat | 2 <= c' < g.Limit() && i < g.bytsPerClus
      ensures ClusByte(g, blocks', c', i) == ClusByte(g, blocks, c', i)
    {
      ClusSectorInRange(g, c', i / BSIZE);
    }
  }

  /** Storing part of one data sector overwrites the same bytes of its cluster and nothing else. */
  lemma StoreSector(g: Geometry, blocks: seq<Block>, v: Vol, c: nat, off: nat, d: seq<byte>, b: Block)
    requires Rep(g, blocks, v) && 2 <= c < g.Limit()
    requires off % BSIZE + |d| <= BSIZE && off < g.bytsPerClus && off + |d| <= g.bytsPerClus
    requires g.FirstSecOfClus(c) + off / BSIZE < |blocks|
    requires b == Overwrite(blocks[g.FirstSecOfClus(c) + off / BSIZE], off % BSIZE, d)
    ensures Rep(g, blocks[g.FirstSecOfClus(c) + off / BSIZE := b],
                v.(clus := v.clus[c := Overwrite(v.clus[c], off, d)]))
  {
    var s := g.FirstSecOfClus(c) + off / BSIZE;
    var blocks' := blocks[s := b];
    ClusSectorInRange(g, c, off / BSIZE);
    forall c': nat | c' < g.Limit()
      ensures FatAt(g, blocks', c') == FatAt(g, blocks, c')
    {
      FatSectorInRange(g, c');
    }
    forall c', i: nat | 2 <= c' < g.Limit() && i < g.bytsPerClus
      ensures ClusByte(g, blocks', c', i) ==
              if c' == c && off <= i < off + |d| then d[i - off] else ClusByte(g, blocks, c', i)
    {
      ClusSectorInRange(g, c', i / BSIZE);
      if g.FirstSecOfClus(c') + i / BSIZE == s {
        SectorOwner(g, c', i / BSIZE, c, off / BSIZE);
        assert i - off == i % BSIZE - off % BSIZE;
      }
    }
    var v' := v.(clus := v.clus[c := Overwrite(v.clus[c], off, d)]);
    forall c', i: nat | 2 <= c' < g.Limit() && i < g.bytsPerClus
      ensures v'.clus[c'][i] == ClusByte(g, blocks', c', i)
    {
      assert v.clus[c'][i] == ClusByte(g, blocks, c', i);
    }
  }

  /** Reading part of one data sector reads the same bytes of its cluster. */
  lemma LoadSector(g: Geometry, blocks: seq<Block>, v: Vol, c: nat, off: nat, m: nat)
    requires Rep(g, blocks, v) && 2 <= c < g.Limit()
    requires off % BSIZE + m <= BSIZE && off < g.bytsPerClus && off + m <= g.bytsPerClus
    ensures g.FirstSecOfClus(c) + off / BSIZE < |blocks|
    ensures blocks[g.FirstSecOfClus(c) + off / BSIZE][off % BSIZE..off % BSIZE + m] == v.clus[c][off..off + m]
  {
    ClusSectorInRange(g, c, off / BSIZE);
    var b := blocks[g.FirstSecOfClus(c) + off / BSIZE];
    forall i: nat | off <= i < off + m
      ensures v.clus[c][i] == b[i - off + off % BSIZE]
    {
      assert v.clus[c][i] == ClusByte(g, blocks, c, i);
    }
  }

  /** After the rest of a sector comes the start of the next one. */
  lemma NextSector(pos: nat, o: nat, m: nat)
    requires o % BSIZE == pos % BSIZE && m <= BSIZE - pos % BSIZE
    ensures (o + m) % BSIZE == (pos + m) % BSIZE
    ensures m == BSIZE - pos % BSIZE ==> (pos + m) / BSIZE == pos / BSIZE + 1
  {
  }

  lemma OverwriteMore<T>(s: seq<T>, off: nat, d: seq<T>, d': seq<T>)
    requires off + |d| + |d'| <= |s|
    ensures Overwrite(Overwrite(s, off, d), off + |d|, d') == Overwrite(s, off, d + d')
  {
  }

  // ---------- Where things are, in numbers ----------

  /** Entry `c` of the FAT is the four bytes from byte 4 c of the FAT on, the lowest first. */
  lemma FatBytes(g: Geometry, blocks: seq<Block>, v: Vol, c: nat)
    requires Rep(g, blocks, v) && c < |v.fat|
    ensures var s, o := g.rsvdSecCnt + c / 128, 4 * (c % 128);
      && s < |blocks| && o + 4 <= 512
      && v.fat[c] == blocks[s][o] as int + 256 * blocks[s][o + 1] as int + 65536 * blocks[s][o + 2] as int
                     + 16777216 * blocks[s][o + 3] as int
  {
    FatSectorInRange(g, c);
    assert v.fat[c] == FatAt(g, blocks, c);
  }

  /** Byte `i` of cluster `c` is in sector i / 512 of the cluster, and cluster 2 is the first of the data area. */
  lemma ClusterBytes(g: Geometry, blocks: seq<Block>, v: Vol, c: nat, i: nat, s: nat)
    requires Rep(g, blocks, v) && 2 <= c < |v.clus| && i < 512 * g.secPerClus
    requires s == g.firstDataSec + (c - 2) * g.secPerClus + i / 512
    ensures |v.clus[c]| == 512 * g.secPerClus && s < |blocks| && v.clus[c][i] == blocks[s][i % 512]
  {
    ClusSectorInRange(g, c, i / BSIZE);
    CapIsMul(c - 2, g.secPerClus);
    assert v.clus[c][i] == ClusByte(g, blocks, c, i);
  }
}
