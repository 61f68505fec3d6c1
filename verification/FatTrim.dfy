/**
 Trimming a FAT32 image before it is sent (tools/burn.py:112-184).  What is cut off is free space, and every
 chain that the kernel follows (kernel/fs/fat32.c:150-192) reads the same bytes, exactly when the image does
 not end inside a cluster in use.
 */
module FatTrim {
  import opened Bytes
  import opened DivMod
  import opened Fat32Layout
  import opened Fat32Chain
  import Burn

  const SECTOR_SIZE := 512

  /** The fields of the boot sector that matter here. */
  datatype Bpb = Bpb(bytesPerSector: nat, spc: nat, rsvd: nat, fats: nat, rootEntries: nat, total: nat, fatSize: nat,
                     rootCluster: nat)

  function Or(a: nat, b: nat): nat { if a != 0 then a else b }

  function ReadBpb(img: seq<byte>): Bpb
    requires |img| >= SECTOR_SIZE
  {
    Bpb(Le16(img, 11), img[13] as nat, Le16(img, 14), img[16] as nat, Le16(img, 17),
        Or(Le16(img, 19), Le32(img, 32)), Or(Le16(img, 22), Le32(img, 36)), Le32(img, 44))
  }

  function DataStart(b: Bpb): nat { b.rsvd + b.fats * b.fatSize }

  function TotalSectors(img: seq<byte>, b: Bpb): nat {
    var n := |img| / SECTOR_SIZE;
    if b.total == 0 || b.total > n then n else b.total
  }

  /** The image is accepted: a FAT32 boot sector whose FATs and data area lie inside the image. */
  predicate Accepted(img: seq<byte>) {
    && |img| >= SECTOR_SIZE
    && var b := ReadBpb(img);
       && b.bytesPerSector == SECTOR_SIZE && b.spc != 0 && b.rsvd != 0 && b.fats != 0
       && b.rootEntries == 0 && b.fatSize != 0 && b.rootCluster >= 2
       && DataStart(b) * SECTOR_SIZE <= |img| && (b.rsvd + b.fatSize) * SECTOR_SIZE <= |img|
       && TotalSectors(img, b) > DataStart(b)
  }

  /** The number in two, or four, bytes of the image, the lowest first. */
  function Num(img: seq<byte>, o: nat, n: nat): nat
    requires o + n <= |img|
    decreases n
  {
    if n == 0 then 0 else img[o] as int + 256 * Num(img, o + 1, n - 1)
  }

  /** The boot sector byte by byte: what is read where. */
  lemma BootBytes(img: seq<byte>)
    requires |img| >= 512
    ensures var b := ReadBpb(img);
      && b.bytesPerSector == Num(img, 11, 2) && b.spc == img[13] as int && b.rsvd == Num(img, 14, 2)
      && b.fats == img[16] as int && b.rootEntries == Num(img, 17, 2) && b.rootCluster == Num(img, 44, 4)
      && b.total == (if Num(img, 19, 2) != 0 then Num(img, 19, 2) else Num(img, 32, 4))
      && b.fatSize == (if Num(img, 22, 2) != 0 then Num(img, 22, 2) else Num(img, 36, 4))
  {
    Nums(img, 11);
    Nums(img, 14);
    Nums(img, 17);
    Nums(img, 19);
    Nums(img, 22);
    Nums(img, 32);
    Nums(img, 36);
    Nums(img, 44);
    hide Num, Le16, Le32;
  }

  lemma Nums(img: seq<byte>, o: nat)
    requires o + 4 <= |img|
    ensures Num(img, o, 2) == Le16(img, o) && Num(img, o, 4) == Le32(img, o)
  {
    assert Num(img, o, 2) == img[o] as int + 256 * Num(img, o + 1, 1);
    assert Num(img, o + 1, 1) == img[o + 1] as int + 256 * Num(img, o + 2, 0);
    assert Num(img, o, 4) == img[o] as int + 256 * Num(img, o + 1, 3);
    assert Num(img, o + 1, 3) == img[o + 1] as int + 256 * Num(img, o + 2, 2);
    assert Num(img, o + 2, 2) == img[o + 2] as int + 256 * Num(img, o + 3, 1);
    assert Num(img, o + 3, 1) == img[o + 3] as int + 256 * Num(img, o + 4, 0);
  }

  /** The checks in numbers: sectors of 512 bytes, no root entries, FATs and data area inside the image. */
  lemma AcceptedExactly(img: seq<byte>)
    ensures Accepted(img) <==>
      && |img| >= 512
      && var b := ReadBpb(img); var start := b.rsvd + b.fats * b.fatSize;
         && b.bytesPerSector == 512 && b.spc >= 1 && b.rsvd >= 1 && b.fats >= 1 && b.rootEntries == 0
         && b.fatSize >= 1 && b.rootCluster >= 2 && 512 * (b.rsvd + b.fatSize) <= |img|
         && 512 * (start + 1) <= |img| && (b.total == 0 || b.total > start)
  {
    hide ReadBpb;
  }

  /** One more than the largest cluster number that is looked at. */
  function Clusters(img: seq<byte>): nat
    requires Accepted(img)
  {
    var b := ReadBpb(img);
    Limit(TotalSectors(img, b) - DataStart(b), b.spc, b.fatSize)
  }

  /** Two more than the clusters in `sectors`, but no more than there are FAT entries. */
  function Limit(sectors: nat, spc: nat, fatSize: nat): nat
    requires spc > 0
  {
    var max := sectors / spc + 1;
    if fatSize * SECTOR_SIZE / 4 < max + 1 then fatSize * SECTOR_SIZE / 4 else max + 1
  }

  /** The FAT entry of cluster `c` without its four reserved bits. */
  function Entry(img: seq<byte>, c: nat): nat
    requires Accepted(img) && c < Clusters(img)
  {
    Le32(img, ReadBpb(img).rsvd * SECTOR_SIZE + c * 4) % 0x1000_0000
  }

  predicate Allocated(img: seq<byte>, c: nat) {
    Accepted(img) && 2 <= c < Clusters(img) && Entry(img, c) != 0
  }

  /** The sector behind cluster `c`. */
  function EndOf(b: Bpb, c: nat): nat
    requires c >= 2
  {
    DataStart(b) + Cap(c - 1, b.spc)
  }

  /** A cluster that is looked at lies inside the data area. */
  lemma ClusterInside(img: seq<byte>, c: nat)
    requires Accepted(img) && 2 <= c < Clusters(img)
    ensures DataStart(ReadBpb(img)) <= EndOf(ReadBpb(img), c) <= TotalSectors(img, ReadBpb(img))
  {
    var b := ReadBpb(img);
    var m := TotalSectors(img, b) - DataStart(b);
    AreDivModMul(m, b.spc);
    QuoRem(m, b.spc);
    hide ReadBpb;
    CapMono(c - 1, m / b.spc, b.spc);
  }

  /** `sectors` is where the last allocated cluster ends, or the data area begins when none is allocated. */
  ghost predicate Trimmed(img: seq<byte>, sectors: nat) {
    && Accepted(img) && DataStart(ReadBpb(img)) <= sectors <= |img| / SECTOR_SIZE
    && (forall c: nat {:trigger Allocated(img, c)} :: Allocated(img, c) ==> EndOf(ReadBpb(img), c) <= sectors)
    && (sectors == DataStart(ReadBpb(img)) || exists c: nat {:trigger Allocated(img, c)} ::
        Allocated(img, c) && sectors == EndOf(ReadBpb(img), c))
  }

  /** The checks at the start of `fat32_effective_size`. */
  method Check(img: seq<byte>) returns (r: Option<Bpb>)
    ensures r.None? <==> !Accepted(img)
    ensures r.Some? ==> r.value == ReadBpb(img)
  {
    if |img| < SECTOR_SIZE {
      return None;
    }
    var b := ReadBpb(img);
    hide ReadBpb;
    if b.bytesPerSector != SECTOR_SIZE || b.spc == 0 || b.rsvd == 0 || b.fats == 0 {
      return None;
    }
    if b.rootEntries != 0 || b.fatSize == 0 || b.rootCluster < 2 {
      return None;
    }
    var total := if b.total == 0 then |img| / SECTOR_SIZE else b.total;
    if total > |img| / SECTOR_SIZE {
      total := |img| / SECTOR_SIZE;
    }
    var start := DataStart(b);
    hide DataStart;
    if start * SECTOR_SIZE > |img| || b.rsvd * SECTOR_SIZE + b.fatSize * SECTOR_SIZE > |img| {
      return None;
    }
    if total <= start {
      return None;
    }
    r := Some(b);
  }

  /**
   `fat32_effective_size`: refused exactly when the image is not accepted; otherwise the size ends with
   the last allocated cluster, or with the FATs when none is allocated.
   */
  method EffectiveSize(img: seq<byte>) returns (r: Option<nat>)
    ensures r.None? <==> !Accepted(img)
    ensures r.Some? ==> r.value % SECTOR_SIZE == 0 && r.value <= |img| && Trimmed(img, r.value / SECTOR_SIZE)
  {
    hide ReadBpb, DataStart, Accepted, Allocated;
    var checked := Check(img);
    if checked.None? {
      return None;
    }
    var b := checked.value;
    var last := LastCluster(img, b);
    var eff := Effective(img, b, last);
    var size := (eff * SECTOR_SIZE + SECTOR_SIZE - 1) / SECTOR_SIZE * SECTOR_SIZE;
    assert size == eff * SECTOR_SIZE && size / SECTOR_SIZE == eff;
    r := Some(size);
  }

  /** The sectors to keep when `last` is the highest allocated cluster. */
  method Effective(img: seq<byte>, b: Bpb, last: nat) returns (eff: nat)
    requires Accepted(img) && b == ReadBpb(img) && (last == 0 || Allocated(img, last))
    requires forall c: nat {:trigger Allocated(img, c)} :: Allocated(img, c) ==> c <= last
    ensures Trimmed(img, eff)
  {
    hide ReadBpb, DataStart;
    var start, total := DataStart(b), TotalSectors(img, b);
    eff := start;
    if last != 0 {
      ClusterInside(img, last);
      CapIsMul(last - 1, b.spc);
      eff := start + (last - 2 + 1) * b.spc;
    }
    if eff > total {
      eff := total;
    }
    forall c: nat | Allocated(img, c)
      ensures EndOf(b, c) <= eff
    {
      CapMono(c - 1, last - 1, b.spc);
    }
  }

  /** The loop over the FAT: the highest allocated cluster, or 0. */
  method LastCluster(img: seq<byte>, b: Bpb) returns (last: nat)
    requires Accepted(img) && b == ReadBpb(img)
    ensures last == 0 || Allocated(img, last)
    ensures forall c: nat {:trigger Allocated(img, c)} :: Allocated(img, c) ==> c <= last
  {
    hide Accepted, Clusters, Entry;
    last := 0;
    var n := Clusters(img);
    var c := 2;
    while c < n
      invariant 2 <= c && (last == 0 || (last < c && Allocated(img, last)))
      invariant forall d: nat {:trigger Allocated(img, d)} :: Allocated(img, d) && d < c ==> d <= last
    {
      if Entry(img, c) != 0 {
        last := c;
      }
      c := c + 1;
    }
  }

  // ---------- What the kernel sees ----------

  /** The sectors that are sent when the whole image is, the last one filled up with zeros. */
  ghost function BlocksOf(img: seq<byte>): (r: seq<Block>)
    ensures |r| == Burn.Sectors(img)
    ensures forall s {:trigger r[s]} :: 0 <= s < |r| ==> r[s] == Burn.Chunk(img, s)
  {
    seq(Burn.Sectors(img), s requires 0 <= s < Burn.Sectors(img) => Burn.Chunk(img, s))
  }

  /** `g` is the geometry that the kernel computes from the boot sector of this image (kernel/fs/fat32.c:80-92). */
  ghost predicate Mounts(img: seq<byte>, g: Geometry) {
    && |img| >= SECTOR_SIZE && g.Valid()
    && g.secPerClus == img[13] as nat && g.rsvdSecCnt == Le16(img, 14) && g.fatSz == Le32(img, 36)
    && g.firstDataSec == g.rsvdSecCnt + img[16] as nat * g.fatSz && g.totSec == Le32(img, 32)
    && g.dataClusCnt == (g.totSec - g.firstDataSec) / g.secPerClus
  }

  /** The 16-bit size fields, which the host prefers and the kernel ignores, are zero, as FAT32 demands. */
  predicate Agrees(img: seq<byte>) {
    |img| >= SECTOR_SIZE && Le16(img, 19) == 0 && Le16(img, 22) == 0
  }

  /** Whole sectors of the image. */
  function Sectors(img: seq<byte>): nat { |img| / SECTOR_SIZE }

  /** The host reads the same boot sector. */
  lemma HostReads(img: seq<byte>, g: Geometry)
    requires Mounts(img, g) && Agrees(img) && Accepted(img)
    ensures var b := ReadBpb(img);
      && b.spc == g.secPerClus && b.rsvd == g.rsvdSecCnt && b.fatSize == g.fatSz && DataStart(b) == g.firstDataSec
      && TotalSectors(img, b) == (if g.totSec <= Sectors(img) then g.totSec else Sectors(img))
    ensures g.firstDataSec < Sectors(img) && g.rsvdSecCnt + g.fatSz <= Sectors(img)
  {
  }

  /** The first cluster number that the host does not look at because the image ends before that cluster does. */
  function CutCluster(img: seq<byte>, g: Geometry): nat
    requires g.secPerClus > 0 && Sectors(img) >= g.firstDataSec
  {
    (Sectors(img) - g.firstDataSec) / g.secPerClus + 2
  }

  /** The host looks at every cluster of the volume, or at those that the image holds whole. */
  lemma HostLimit(img: seq<byte>, g: Geometry)
    requires Mounts(img, g) && Agrees(img) && Accepted(img)
    ensures g.secPerClus > 0 && Sectors(img) >= g.firstDataSec
    ensures Clusters(img) == if g.totSec <= Sectors(img) then g.Limit() else CutCluster(img, g)
    ensures Clusters(img) <= g.Limit() && CutCluster(img, g) >= Clusters(img)
  {
    HostReads(img, g);
    hide ReadBpb, DataStart, Accepted, Mounts;
    var m, m' := g.totSec - g.firstDataSec, Sectors(img) - g.firstDataSec;
    AreDivModMul(m, g.secPerClus);
    AreDivModMul(m', g.secPerClus);
    if m <= m' {
      QuoMono(m, m', g.secPerClus);
    } else {
      QuoMono(m', m, g.secPerClus);
    }
  }

  /** The FAT word of cluster `c` in the image, without its reserved bits. */
  function Word(img: seq<byte>, g: Geometry, c: nat): nat
    requires g.Valid() && g.rsvdSecCnt + g.fatSz <= Sectors(img) && c < g.Limit()
  {
    Le32(img, g.rsvdSecCnt * SECTOR_SIZE + c * 4) % 0x1000_0000
  }

  /** The host and the kernel read the same FAT words. */
  lemma SameFat(img: seq<byte>, g: Geometry, c: nat)
    requires Mounts(img, g) && Agrees(img) && Accepted(img) && c < Clusters(img)
    ensures c < g.Limit() && g.rsvdSecCnt + g.fatSz <= Sectors(img) && Entry(img, c) == Word(img, g, c)
  {
    HostReads(img, g);
    HostLimit(img, g);
    hide ReadBpb, DataStart, Mounts, Clusters;
  }

  /** The kernel finds the FAT words in the sectors of the image. */
  lemma BlockWord(img: seq<byte>, g: Geometry, c: nat)
    requires g.Valid() && g.rsvdSecCnt + g.fatSz <= Sectors(img) && c < g.Limit()
    ensures g.FatSecOfClus(c) < Sectors(img) && g.FatOffsetOfClus(c) == 4 * (c % 128)
    ensures Le32(BlocksOf(img)[g.FatSecOfClus(c)], g.FatOffsetOfClus(c)) % 0x1000_0000 == Word(img, g, c)
  {
    FatSectorInRange(g, c);
    var s, o := g.FatSecOfClus(c), g.FatOffsetOfClus(c);
    var blk := BlocksOf(img)[s];
    assert blk == img[s * BSIZE..s * BSIZE + BSIZE];
    assert s * BSIZE + o == g.rsvdSecCnt * SECTOR_SIZE + c * 4;
  }

  // ---------- The card before and after ----------

  /** The volume's blocks on a card that held `old` after the first `n` sectors of the image were written. */
  ghost function Card(img: seq<byte>, n: nat, old': seq<Block>): (r: seq<Block>)
    ensures |r| == |old'|
    ensures forall s {:trigger r[s]} ::
      0 <= s < |r| ==> r[s] == if s < n && s < Burn.Sectors(img) then BlocksOf(img)[s] else old'[s]
  {
    seq(|old'|, s requires 0 <= s < |old'| => if s < n && s < Burn.Sectors(img) then BlocksOf(img)[s] else old'[s])
  }

  ghost function VolOf(g: Geometry, blocks: seq<Block>): (v: Vol)
    requires g.Valid() && |blocks| == g.totSec
    ensures Rep(g, blocks, v)
  {
    Vol(seq(g.Limit(), c requires 0 <= c < g.Limit() => FatAt(g, blocks, c)),
        seq(g.Limit(), c requires 0 <= c < g.Limit() =>
          if c < 2 then [] else seq(g.bytsPerClus, i requires 0 <= i < g.bytsPerClus => ClusByte(g, blocks, c, i))))
  }

  /** A cluster that the kernel takes for allocated, whether the host looks at it or not. */
  predicate InUse(img: seq<byte>, g: Geometry, c: nat) {
    g.Valid() && g.rsvdSecCnt + g.fatSz <= Sectors(img) && 2 <= c < g.Limit() && Word(img, g, c) != 0
  }

  /** The volumes after sending all of the image and `sectors` of it agree on the FAT and on clusters in use. */
  ghost predicate SameVolumes(img: seq<byte>, g: Geometry, sectors: nat, old': seq<Block>) {
    && g.Valid() && |old'| == g.totSec
    && var v, v' := VolOf(g, Card(img, Burn.Sectors(img), old')), VolOf(g, Card(img, sectors, old'));
       && v'.fat == v.fat
       && forall c: nat {:trigger InUse(img, g, c)} :: InUse(img, g, c) ==> v'.clus[c] == v.clus[c]
  }

  /** The image ends inside a cluster that is in use. */
  predicate CutsCluster(img: seq<byte>, g: Geometry) {
    && g.secPerClus > 0 && Sectors(img) >= g.firstDataSec && InUse(img, g, CutCluster(img, g))
    && |img| > SECTOR_SIZE * g.FirstSecOfClus(CutCluster(img, g))
  }

  /** Sending the image cut after `n` sectors is sending its first `n` sectors. */
  lemma SendTrimmed(img: seq<byte>, n: nat, old': seq<Block>)
    requires n <= Sectors(img)
    ensures var cut := img[..SECTOR_SIZE * n];
      Burn.Sectors(cut) == n && Card(cut, Burn.Sectors(cut), old') == Card(img, n, old')
  {
    var cut := img[..SECTOR_SIZE * n];
    forall s | 0 <= s < n
      ensures Burn.Chunk(cut, s) == Burn.Chunk(img, s)
    {
    }
  }

  lemma SameFats(img: seq<byte>, g: Geometry, sectors: nat, old': seq<Block>)
    requires Mounts(img, g) && Agrees(img) && Trimmed(img, sectors) && |old'| == g.totSec
    ensures VolOf(g, Card(img, sectors, old')).fat == VolOf(g, Card(img, Burn.Sectors(img), old')).fat
  {
    HostReads(img, g);
    hide ReadBpb, DataStart, Accepted, Mounts, Allocated;
    var a, b := Card(img, Burn.Sectors(img), old'), Card(img, sectors, old');
    forall c: nat | c < g.Limit()
      ensures VolOf(g, b).fat[c] == VolOf(g, a).fat[c]
    {
      FatSectorInRange(g, c);
      assert FatAt(g, b, c) == FatAt(g, a, c);
    }
  }

  /** A cluster whose sectors are on both cards the same reads the same. */
  lemma SameCluster(g: Geometry, a: seq<Block>, b: seq<Block>, c: nat)
    requires g.Valid() && |a| == |b| == g.totSec && 2 <= c < g.Limit()
    requires forall s {:trigger b[s]} ::
      g.FirstSecOfClus(c) <= s < g.FirstSecOfClus(c) + g.secPerClus && s < |a| ==> b[s] == a[s]
    ensures VolOf(g, b).clus[c] == VolOf(g, a).clus[c]
  {
    forall i | 0 <= i < g.bytsPerClus
      ensures VolOf(g, b).clus[c][i] == VolOf(g, a).clus[c][i]
    {
      ClusSectorInRange(g, c, i / BSIZE);
      assert ClusByte(g, b, c, i) == ClusByte(g, a, c, i);
    }
  }

  /** A cluster from the cut on lies behind what is sent, unless the image ends inside it. */
  lemma BehindImage(img: seq<byte>, g: Geometry, c: nat)
    requires g.secPerClus > 0 && Sectors(img) >= g.firstDataSec && c >= CutCluster(img, g)
    requires c == CutCluster(img, g) ==> |img| <= SECTOR_SIZE * g.FirstSecOfClus(c)
    ensures Burn.Sectors(img) <= g.FirstSecOfClus(c)
  {
    hide Quo, Rem, Cap;
    if c > CutCluster(img, g) {
      var m := Sectors(img) - g.firstDataSec;
      AreDivModMul(m, g.secPerClus);
      QuoRem(m, g.secPerClus);
      CapMono(Quo(m, g.secPerClus) + 1, c - 2, g.secPerClus);
      CapNext(Quo(m, g.secPerClus), g.secPerClus);
      RemSmall(m, g.secPerClus);
    }
  }

  lemma CapNext(n: nat, b: nat)
    ensures Cap(n + 1, b) == Cap(n, b) + b
  {
  }

  lemma RemSmall(k: nat, b: nat)
    requires b > 0
    ensures Rem(k, b) < b
  {
    AreDivModMul(k, b);
  }

  /** A cluster in use lies inside what is sent or behind the image, unless the image ends inside it. */
  lemma ClusterPlace(img: seq<byte>, g: Geometry, sectors: nat, c: nat)
    requires Mounts(img, g) && Agrees(img) && Trimmed(img, sectors) && InUse(img, g, c) && !CutsCluster(img, g)
    ensures g.FirstSecOfClus(c) + g.secPerClus <= sectors || Burn.Sectors(img) <= g.FirstSecOfClus(c)
  {
    HostLimit(img, g);
    if c < Clusters(img) {
      InsideSent(img, g, sectors, c);
    } else {
      hide Mounts, Agrees, Trimmed, Clusters, Word, Geometry.FirstSecOfClus, Accepted;
      BehindImage(img, g, c);
    }
  }

  lemma InsideSent(img: seq<byte>, g: Geometry, sectors: nat, c: nat)
    requires Mounts(img, g) && Agrees(img) && Trimmed(img, sectors) && InUse(img, g, c) && c < Clusters(img)
    ensures g.FirstSecOfClus(c) + g.secPerClus <= sectors
  {
    HostReads(img, g);
    SameFat(img, g, c);
    hide ReadBpb, DataStart, Accepted, Mounts, Agrees, Word, Clusters, Entry;
    assert Allocated(img, c);
    assert EndOf(ReadBpb(img), c) <= sectors;
    CapNext(c - 2, g.secPerClus);
  }

  /** What is sent ends before the cluster that the image cuts. */
  lemma TrimBeforeCut(img: seq<byte>, g: Geometry, sectors: nat)
    requires Mounts(img, g) && Agrees(img) && Trimmed(img, sectors) && CutsCluster(img, g)
    ensures 2 <= CutCluster(img, g) < g.Limit()
    ensures sectors <= g.FirstSecOfClus(CutCluster(img, g)) < Burn.Sectors(img)
  {
    HostReads(img, g);
    HostLimit(img, g);
    hide ReadBpb, DataStart, Accepted, Mounts, Agrees, Word, Clusters, Cap, CutCluster, Entry;
    if sectors != g.firstDataSec {
      var c: nat :| Allocated(img, c) && sectors == EndOf(ReadBpb(img), c);
      CapMono(c - 1, CutCluster(img, g) - 2, g.secPerClus);
    }
  }

  /**
   Trimming keeps every cluster in use, whatever the card held before, exactly when the image does not end inside
   one.
   */
  lemma TrimExactly(img: seq<byte>, g: Geometry, sectors: nat)
    requires Mounts(img, g) && Agrees(img) && Trimmed(img, sectors)
    ensures (forall old': seq<Block> :: |old'| == g.totSec ==> SameVolumes(img, g, sectors, old')) <==>
      !CutsCluster(img, g)
  {
    hide Mounts, Agrees, Trimmed, CutsCluster;
    if CutsCluster(img, g) {
      var old' := TrimLoses(img, g, sectors);
    } else {
      forall old': seq<Block> | |old'| == g.totSec
        ensures SameVolumes(img, g, sectors, old')
      {
        TrimKeeps(img, g, sectors, old');
      }
    }
  }

  lemma TrimKeeps(img: seq<byte>, g: Geometry, sectors: nat, old': seq<Block>)
    requires Mounts(img, g) && Agrees(img) && Trimmed(img, sectors) && !CutsCluster(img, g) && |old'| == g.totSec
    ensures SameVolumes(img, g, sectors, old')
  {
    SameFats(img, g, sectors, old');
    var a, b := Card(img, Burn.Sectors(img), old'), Card(img, sectors, old');
    forall c: nat | InUse(img, g, c)
      ensures VolOf(g, b).clus[c] == VolOf(g, a).clus[c]
    {
      ClusterPlace(img, g, sectors, c);
      hide Mounts, Agrees, Trimmed, CutsCluster, Word;
      SameCluster(g, a, b, c);
    }
  }

  /** A card on which the part of the cut cluster that is in the image does not arrive. */
  lemma TrimLoses(img: seq<byte>, g: Geometry, sectors: nat) returns (old': seq<Block>)
    requires Mounts(img, g) && Agrees(img) && Trimmed(img, sectors) && CutsCluster(img, g)
    ensures |old'| == g.totSec && !SameVolumes(img, g, sectors, old')
    ensures var c, v, v' :=
      CutCluster(img, g), VolOf(g, Card(img, Burn.Sectors(img), old')), VolOf(g, Card(img, sectors, old'));
      2 <= c < g.Limit() && v'.clus[c] != v.clus[c]
  {
    TrimBeforeCut(img, g, sectors);
    var c := CutCluster(img, g);
    assert InUse(img, g, c);
    hide Mounts, Agrees, Trimmed, CutsCluster, Word, InUse, VolOf;
    old' := OtherCard(img, g, sectors, c);
  }

  /** A card that differs from the image in the first byte of a cluster that is not sent. */
  lemma OtherCard(img: seq<byte>, g: Geometry, sectors: nat, c: nat) returns (old': seq<Block>)
    requires g.Valid() && 2 <= c < g.Limit() && sectors <= g.FirstSecOfClus(c) < Burn.Sectors(img)
    ensures |old'| == g.totSec
    ensures VolOf(g, Card(img, sectors, old')).clus[c] != VolOf(g, Card(img, Burn.Sectors(img), old')).clus[c]
  {
    hide Burn.Chunk, Burn.Sectors, Geometry.FirstSecOfClus;
    var s := g.FirstSecOfClus(c);
    ClusSectorInRange(g, c, 0);
    var other: byte := if BlocksOf(img)[s][0] == 0 then 1 else 0;
    var blk: Block := seq(BSIZE, _ => other);
    old' := seq(g.totSec, _ => blk);
    var a, b := Card(img, Burn.Sectors(img), old'), Card(img, sectors, old');
    assert ClusByte(g, b, c, 0) == other && ClusByte(g, a, c, 0) != other;
    assert VolOf(g, b).clus[c][0] != VolOf(g, a).clus[c][0];
  }

  /** An image that holds the whole volume cuts nothing. */
  lemma WholeImage(img: seq<byte>, g: Geometry)
    requires Mounts(img, g) && Agrees(img) && Accepted(img) && g.totSec <= Sectors(img)
    ensures !CutsCluster(img, g)
  {
    HostLimit(img, g);
  }

  // ---------- Files ----------

  /** FAT entries fit in 28 bits, which is what the kernel's unmasked comparison relies on. */
  ghost predicate Narrow(fat: seq<nat>) {
    forall c {:trigger fat[c]} :: 0 <= c < |fat| ==> fat[c] < 0x1000_0000
  }

  /** The kernel reads the image's FAT words from the card. */
  lemma CardWord(img: seq<byte>, g: Geometry, old': seq<Block>, c: nat)
    requires g.Valid() && g.rsvdSecCnt + g.fatSz <= Sectors(img) && |old'| == g.totSec && c < g.Limit()
    ensures VolOf(g, Card(img, Burn.Sectors(img), old')).fat[c] % 0x1000_0000 == Word(img, g, c)
  {
    BlockWord(img, g, c);
    FatSectorInRange(g, c);
    hide Word, Le32, VolOf;
    var a := Card(img, Burn.Sectors(img), old');
    assert VolOf(g, a).fat[c] == FatAt(g, a, c);
  }

  /** A cluster of a chain is in use. */
  lemma ChainInUse(img: seq<byte>, g: Geometry, fat: seq<nat>, ch: seq<nat>, i: nat)
    requires g.Valid() && g.rsvdSecCnt + g.fatSz <= Sectors(img) && |fat| == g.Limit()
    requires forall c {:trigger fat[c]} :: 0 <= c < |fat| ==> fat[c] % 0x1000_0000 == Word(img, g, c)
    requires Narrow(fat) && IsChain(fat, ch) && i < |ch|
    ensures InUse(img, g, ch[i])
  {
    hide Word;
    assert i < |ch| - 1 ==> fat[ch[i]] == ch[i + 1];
    assert fat[ch[i]] < 0x1000_0000;
  }

  /**
   Every file that the kernel can follow after the whole image was written reads the same when only the trimmed part
   was, unless the image ends inside a cluster in use.
   */
  lemma TrimKeepsFiles(img: seq<byte>, g: Geometry, sectors: nat, old': seq<Block>, ch: seq<nat>, size: nat)
    requires Mounts(img, g) && Agrees(img) && Trimmed(img, sectors) && !CutsCluster(img, g) && |old'| == g.totSec
    requires var fat := VolOf(g, Card(img, Burn.Sectors(img), old')).fat; Narrow(fat) && IsChain(fat, ch)
    requires size <= Cap(|ch|, g.bytsPerClus)
    ensures var v, v' := VolOf(g, Card(img, Burn.Sectors(img), old')), VolOf(g, Card(img, sectors, old'));
      && IsChain(v'.fat, ch) && Readable(g.bytsPerClus, v, ch) && Readable(g.bytsPerClus, v', ch)
      && Content(g.bytsPerClus, v', ch, size) == Content(g.bytsPerClus, v, ch, size)
  {
    TrimKeeps(img, g, sectors, old');
    HostReads(img, g);
    var v, v' := VolOf(g, Card(img, Burn.Sectors(img), old')), VolOf(g, Card(img, sectors, old'));
    hide Mounts, Agrees, Trimmed, FatAt, ClusByte, InUse, CutsCluster, VolOf, Word;
    forall c: nat | c < g.Limit()
      ensures v.fat[c] % 0x1000_0000 == Word(img, g, c)
    {
      CardWord(img, g, old', c);
    }
    forall i | 0 <= i < |ch|
      ensures v'.clus[ch[i]] == v.clus[ch[i]] && |v.clus[ch[i]]| == g.bytsPerClus
    {
      ChainInUse(img, g, v.fat, ch, i);
    }
    SameContent(g.bytsPerClus, v, v', ch, size);
  }

  lemma {:induction false} SameContent(bpc: nat, v: Vol, v': Vol, ch: seq<nat>, size: nat)
    requires Readable(bpc, v, ch) && Readable(bpc, v', ch) && size <= Cap(|ch|, bpc)
    requires forall i {:trigger ch[i]} :: 0 <= i < |ch| ==> v'.clus[ch[i]] == v.clus[ch[i]]
    ensures Content(bpc, v', ch, size) == Content(bpc, v, ch, size)
  {
    if size > 0 {
      SameContent(bpc, v, v', ch, size - 1);
      QuoBound(size - 1, |ch|, bpc);
      assert v'.clus[ch[Quo(size - 1, bpc)]] == v.clus[ch[Quo(size - 1, bpc)]];
      assert ByteAt(bpc, v', ch, size - 1) == ByteAt(bpc, v, ch, size - 1);
    }
  }

  // ---------- An image that ends inside a file ----------

  /** One reserved sector, one FAT of one sector, clusters of two sectors; cluster 3 is a file, cluster 2 is free. */
  function CutByte(i: nat): byte {
    if i == 12 || i == 13 || i == 44 then 2 else if i == 14 || i == 16 || i == 36 then 1 else if i == 32 then 6
    else if i == 524 then 0xf8 else if i == 525 || i == 526 then 0xff else if i == 527 then 0x0f
    else if i == 2048 then 7 else 0
  }

  /** The first `n` of the 3072 bytes of that volume. */
  ghost function CutImage(n: nat): (img: seq<byte>)
    ensures |img| == n && forall i {:trigger img[i]} :: 0 <= i < n ==> img[i] == CutByte(i)
  {
    seq(n, i requires 0 <= i < n => CutByte(i))
  }

  const CUT_GEOMETRY := Geometry(2, 2, 1024, 2, 1, 1, 6)

  lemma CutImageWords(n: nat)
    requires 2048 < n < 3072
    ensures var img := CutImage(n);
      && ReadBpb(img) == Bpb(512, 2, 1, 1, 0, 6, 1, 2) && Le16(img, 14) == 1 && Le16(img, 19) == 0 && Le16(img, 22) == 0
      && img[13] == 2 && img[16] == 1
      && Le32(img, 32) == 6 && Le32(img, 36) == 1 && Le32(img, 524) == 0x0fff_fff8 && Le32(img, 520) == 0
  {
    var img := CutImage(n);
    Word16(img, 11, 0, 2);
    Word16(img, 14, 1, 0);
    Word16(img, 17, 0, 0);
    Word16(img, 19, 0, 0);
    Word16(img, 22, 0, 0);
    Word32(img, 32, 6);
    Word32(img, 36, 1);
    Word32(img, 44, 2);
    Word32(img, 520, 0);
    assert img[524] == 0xf8 && img[525] == 0xff && img[526] == 0xff && img[527] == 0x0f;
  }

  lemma Word16(img: seq<byte>, o: nat, a: byte, b: byte)
    requires o + 2 <= |img| && img[o] == a && img[o + 1] == b
    ensures Le16(img, o) == a as int + 256 * b as int
  {
  }

  lemma Word32(img: seq<byte>, o: nat, a: byte)
    requires o + 4 <= |img| && img[o] == a && img[o + 1] == img[o + 2] == img[o + 3] == 0
    ensures Le32(img, o) == a as int
  {
  }

  lemma CutGeometry()
    ensures CUT_GEOMETRY.Valid() && CUT_GEOMETRY.Limit() == 4
  {
    assert Cap(2, 2) == Cap(1, 2) + 2 == 4;
  }

  lemma CutImageFits(n: nat)
    requires 2048 < n < 3072
    ensures Mounts(CutImage(n), CUT_GEOMETRY) && Agrees(CutImage(n)) && Accepted(CutImage(n))
    ensures CutsCluster(CutImage(n), CUT_GEOMETRY) && CutCluster(CutImage(n), CUT_GEOMETRY) == 3
    ensures Word(CutImage(n), CUT_GEOMETRY, 3) >= EOC
  {
    CutGeometry();
    CutImageWords(n);
    hide Le16, Le32, ReadBpb, CutByte, Geometry.Valid;
  }

  lemma CutImageTrimmed(n: nat)
    requires 2048 < n < 3072
    ensures Trimmed(CutImage(n), 2)
  {
    CutImageFits(n);
    CutImageWords(n);
    var img := CutImage(n);
    hide Le16, Le32, ReadBpb, CutByte, Mounts, CutsCluster;
    assert Clusters(img) == 3 && Entry(img, 2) == 0;
    hide Entry, Clusters, Accepted;
    assert forall c: nat {:trigger Allocated(img, c)} :: !Allocated(img, c);
  }

  /** The file that consists of cluster `c` alone reads differently on the two volumes. */
  ghost predicate FileDiffers(bpc: nat, v: Vol, v': Vol, c: nat) {
    && IsChain(v.fat, [c]) && IsChain(v'.fat, [c]) && Readable(bpc, v, [c]) && Readable(bpc, v', [c])
    && Content(bpc, v', [c], Cap(1, bpc)) != Content(bpc, v, [c], Cap(1, bpc))
  }

  lemma ClusterDiffers(bpc: nat, v: Vol, v': Vol, c: nat)
    requires bpc > 0 && 2 <= c < |v.fat| == |v.clus| == |v'.fat| == |v'.clus| && |v.clus[c]| == |v'.clus[c]| == bpc
    requires v.fat[c] >= EOC && v'.fat[c] >= EOC && v'.clus[c] != v.clus[c]
    ensures FileDiffers(bpc, v, v', c)
  {
    hide Content, Cap;
    OneClusterRaw(bpc, v, c);
    OneClusterRaw(bpc, v', c);
  }

  lemma VolSize(g: Geometry, blocks: seq<Block>, c: nat)
    requires g.Valid() && |blocks| == g.totSec && 2 <= c < g.Limit()
    ensures var v := VolOf(g, blocks); |v.fat| == |v.clus| == g.Limit() && |v.clus[c]| == g.bytsPerClus > 0
  {
  }

  lemma AtLeast(x: nat)
    requires x % 0x1000_0000 >= EOC
    ensures x >= EOC
  {
  }

  /** A file in one cluster that the image cuts is not what it was, on some card. */
  lemma CutFileLost(img: seq<byte>, g: Geometry, sectors: nat) returns (old': seq<Block>)
    requires Mounts(img, g) && Agrees(img) && Trimmed(img, sectors) && CutsCluster(img, g)
      && Word(img, g, CutCluster(img, g)) >= EOC
    ensures |old'| == g.totSec
    ensures FileDiffers(g.bytsPerClus, VolOf(g, Card(img, Burn.Sectors(img), old')), VolOf(g, Card(img, sectors, old')),
                        CutCluster(img, g))
  {
    HostReads(img, g);
    assert g.Valid();
    hide Mounts, Agrees, Trimmed, CutsCluster, Word, VolOf, FileDiffers, Rep, SameVolumes;
    old' := TrimLoses(img, g, sectors);
    SameFats(img, g, sectors, old');
    var c := CutCluster(img, g);
    CardWord(img, g, old', c);
    VolSize(g, Card(img, Burn.Sectors(img), old'), c);
    VolSize(g, Card(img, sectors, old'), c);
    var v, v' := VolOf(g, Card(img, Burn.Sectors(img), old')), VolOf(g, Card(img, sectors, old'));
    AtLeast(v.fat[c]);
    ClusterDiffers(g.bytsPerClus, v, v', c);
  }

  /** The concrete images: the host sends two sectors, and the file in cluster 3, of which it has a part, is lost. */
  lemma CutImageLosesFile(n: nat) returns (old': seq<Block>)
    requires 2048 < n < 3072
    ensures Trimmed(CutImage(n), 2) && |old'| == 6 && CUT_GEOMETRY.Valid()
    ensures FileDiffers(CUT_GEOMETRY.bytsPerClus,
                        VolOf(CUT_GEOMETRY, Card(CutImage(n), Burn.Sectors(CutImage(n)), old')),
                        VolOf(CUT_GEOMETRY, Card(CutImage(n), 2, old')), 3)
  {
    CutImageFits(n);
    CutImageTrimmed(n);
    hide FileDiffers, Mounts, Agrees, Trimmed, CutsCluster, VolOf, Word, CutCluster;
    old' := CutFileLost(CutImage(n), CUT_GEOMETRY, 2);
  }
}
