/**
 Cluster chains, file contents and the ownership of clusters, as facts about values.
 Nothing here mentions blocks: see Fat32Layout for how the two tables lie on the disk.
 */
module Fat32Chain {
  import opened Bytes
  import opened DivMod
  import opened Fat32Layout

  /** Bit ATTR_DIRECTORY (0x10). */
  predicate IsDirectory(attribute: nat) { attribute / 0x10 % 2 == 1 }

  /** Bit ATTR_READ_ONLY (0x01). */
  predicate IsReadOnly(attribute: nat) { attribute % 2 == 1 }

  /** The part of `struct dirent` that locates a file's bytes. */
  datatype Dirent = Dirent(
    attribute: nat, firstClus: nat, fileSize: nat, curClus: nat, clusCnt: nat, dirty: bool)

  /** `ch` is a whole chain: every link is in range and the last word marks the end. */
  ghost predicate IsChain(fat: seq<nat>, ch: seq<nat>) {
    && |ch| > 0
    && (forall i :: 0 <= i < |ch| ==> 2 <= ch[i] < |fat|)
    && (forall i {:trigger fat[ch[i]]} :: 0 <= i < |ch| - 1 ==> fat[ch[i]] == ch[i + 1])
    && fat[ch[|ch| - 1]] >= EOC
  }

  /** A chain in numbers: its last word is an end mark from 0x0ffffff8 on. */
  lemma ChainWords(fat: seq<nat>, ch: seq<nat>)
    ensures IsChain(fat, ch) <==>
      && ch != []
      && forall i {:trigger ch[i]} :: 0 <= i < |ch| ==>
           && 2 <= ch[i] < |fat|
           && if i + 1 < |ch| then fat[ch[i]] == ch[i + 1] else fat[ch[i]] >= 268435448
  {
  }

  /** Bit 4 of the attribute is a directory, bit 0 is read-only. */
  lemma AttributeBits(a: bv8)
    ensures IsDirectory(a as nat) <==> a & 16 != 0
    ensures IsReadOnly(a as nat) <==> a & 1 != 0
  {
  }

  /** A chain never visits a cluster twice. */
  lemma {:induction false} ChainAcyclic(fat: seq<nat>, ch: seq<nat>, i: nat, j: nat)
    requires IsChain(fat, ch) && |fat| <= EOC && i < j < |ch|
    ensures ch[i] != ch[j]
    decreases |ch| - j
  {
    assert fat[ch[i]] == ch[i + 1];
    if j < |ch| - 1 {
      ChainAcyclic(fat, ch, i + 1, j + 1);
      assert fat[ch[j]] == ch[j + 1];
    }
  }

  /** A first cluster determines its chain. */
  lemma {:induction false} ChainUnique(fat: seq<nat>, ch: seq<nat>, ch': seq<nat>)
    requires IsChain(fat, ch) && IsChain(fat, ch') && |fat| <= EOC && ch[0] == ch'[0]
    ensures ch == ch'
    decreases |ch|
  {
    if |ch| > 1 && |ch'| > 1 {
      assert fat[ch[0]] == ch[1] && fat[ch'[0]] == ch'[1];
      ChainUnique(fat, ch[1..], ch'[1..]);
      assert ch == [ch[0]] + ch[1..] && ch' == [ch'[0]] + ch'[1..];
    } else {
      LinkInRange(fat, ch);
      LinkInRange(fat, ch');
      assert ch == [ch[0]] && ch' == [ch'[0]];
    }
  }

  lemma LinkInRange(fat: seq<nat>, ch: seq<nat>)
    requires IsChain(fat, ch) && |fat| <= EOC
    ensures fat[ch[0]] < EOC <==> |ch| > 1
  {
    if |ch| > 1 {
      assert fat[ch[0]] == ch[1];
    }
  }

  // ---------- Bytes of a chain ----------

  /** Every cluster of `ch` has `bpc` bytes in `v`. */
  ghost predicate Readable(bpc: nat, v: Vol, ch: seq<nat>) {
    && bpc > 0
    && |v.clus| == |v.fat|
    && (forall i :: 0 <= i < |ch| ==> 2 <= ch[i] < |v.fat| && |v.clus[ch[i]]| == bpc)
  }

  ghost function ByteAt(bpc: nat, v: Vol, ch: seq<nat>, k: nat): byte
    requires Readable(bpc, v, ch) && k < Cap(|ch|, bpc)
  {
    QuoBound(k, |ch|, bpc);
    v.clus[ch[Quo(k, bpc)]][Rem(k, bpc)]
  }

  /** The first `size` bytes of the clusters of `ch` put end to end. */
  ghost function Content(bpc: nat, v: Vol, ch: seq<nat>, size: nat): (r: seq<byte>)
    requires Readable(bpc, v, ch) && size <= Cap(|ch|, bpc)
    ensures |r| == size
  {
    if size == 0 then [] else Content(bpc, v, ch, size - 1) + [ByteAt(bpc, v, ch, size - 1)]
  }

  lemma {:induction false} ContentAt(bpc: nat, v: Vol, ch: seq<nat>, size: nat, k: nat)
    requires Readable(bpc, v, ch) && k < size <= Cap(|ch|, bpc)
    ensures Content(bpc, v, ch, size)[k] == ByteAt(bpc, v, ch, k)
  {
    if k < size - 1 {
      ContentAt(bpc, v, ch, size - 1, k);
    }
  }

  ghost function Concat(v: Vol, ch: seq<nat>): seq<byte>
    requires forall i :: 0 <= i < |ch| ==> ch[i] < |v.clus|
  {
    if ch == [] then [] else Concat(v, ch[..|ch| - 1]) + v.clus[ch[|ch| - 1]]
  }

  /** `Content` is the concatenation of the clusters, cut to `size`. */
  lemma {:induction false} ContentIsConcat(bpc: nat, v: Vol, ch: seq<nat>, size: nat)
    requires Readable(bpc, v, ch) && size <= Cap(|ch|, bpc)
    ensures |Concat(v, ch)| == |ch| * bpc && size <= |ch| * bpc
    ensures Content(bpc, v, ch, size) == Concat(v, ch)[..size]
  {
    ConcatBytes(bpc, v, ch);
    CapIsMul(|ch|, bpc);
    forall k: nat | k < size
      ensures Content(bpc, v, ch, size)[k] == Concat(v, ch)[k]
    {
      ContentAt(bpc, v, ch, size, k);
    }
  }

  /** The content of a file of one cluster. */
  lemma OneClusterRaw(bpc: nat, v: Vol, c: nat)
    requires Readable(bpc, v, [c]) && c < |v.clus| && |v.clus[c]| == bpc
    ensures Content(bpc, v, [c], Cap(1, bpc)) == v.clus[c]
  {
    hide Content;
    ContentIsConcat(bpc, v, [c], Cap(1, bpc));
    CapIsMul(1, bpc);
    assert [c][..0] == [];
    assert Concat(v, [c]) == Concat(v, []) + v.clus[c] == v.clus[c];
  }

  lemma {:induction false} ConcatBytes(bpc: nat, v: Vol, ch: seq<nat>)
    requires Readable(bpc, v, ch)
    ensures |Concat(v, ch)| == Cap(|ch|, bpc)
    ensures forall k {:trigger ByteAt(bpc, v, ch, k)} ::
              0 <= k < Cap(|ch|, bpc) ==> Concat(v, ch)[k] == ByteAt(bpc, v, ch, k)
  {
    if ch != [] {
      var n := |ch| - 1;
      var pre := ch[..n];
      ConcatBytes(bpc, v, pre);
      forall k: nat | k < Cap(|ch|, bpc)
        ensures Concat(v, ch)[k] == ByteAt(bpc, v, ch, k)
      {
        QuoBound(k, n, bpc);
        if k < Cap(n, bpc) {
          assert ByteAt(bpc, v, pre, k) == ByteAt(bpc, v, ch, k);
        } else {
          QuoUnique(n, k - Cap(n, bpc), bpc);
        }
      }
    }
  }

  /** Contents depend only on the clusters of the chain. */
  lemma {:induction false} ContentFrame(bpc: nat, v: Vol, v': Vol, ch: seq<nat>, ch': seq<nat>, size: nat)
    requires Readable(bpc, v, ch) && Readable(bpc, v', ch') && ch <= ch'
    requires size <= Cap(|ch|, bpc)
    requires forall i :: 0 <= i < |ch| ==> v'.clus[ch[i]] == v.clus[ch[i]]
    ensures size <= Cap(|ch'|, bpc)
    ensures Content(bpc, v', ch', size) == Content(bpc, v, ch, size)
  {
    CapMono(|ch|, |ch'|, bpc);
    if size > 0 {
      ContentFrame(bpc, v, v', ch, ch', size - 1);
      QuoBound(size - 1, |ch|, bpc);
      assert ch'[Quo(size - 1, bpc)] == ch[Quo(size - 1, bpc)];
    }
  }

  /** Overwriting inside one cluster of an acyclic chain overwrites the file at the matching offset. */
  lemma ContentWrite(bpc: nat, v: Vol, v': Vol, ch: seq<nat>, off: nat, d: seq<byte>, size: nat)
    requires Readable(bpc, v, ch) && Readable(bpc, v', ch)
    requires forall i, j :: 0 <= i < j < |ch| ==> ch[i] != ch[j]
    requires 0 < |d| && Rem(off, bpc) + |d| <= bpc && Quo(off, bpc) < |ch|
    requires v'.clus == v.clus[ch[Quo(off, bpc)] := Overwrite(v.clus[ch[Quo(off, bpc)]], Rem(off, bpc), d)]
    requires off <= size <= Cap(|ch|, bpc)
    ensures off + |d| <= Cap(|ch|, bpc)
    ensures Spliced(Content(bpc, v', ch, Max(off + |d|, size)), Content(bpc, v, ch, size), off, d)
  {
    hide Quo, Rem, Cap, Content, ByteAt;
    QuoStep(off, |d| - 1, bpc);
    QuoBound(off + |d| - 1, |ch|, bpc);
    var size' := Max(off + |d|, size);
    var c, c' := Content(bpc, v, ch, size), Content(bpc, v', ch, size');
    forall k: nat | k < size'
      ensures c'[k] == if off <= k < off + |d| then d[k - off] else c[k]
    {
      ByteWrite(bpc, v, v', ch, off, d, k);
      ContentAt(bpc, v', ch, size', k);
      if k < size {
        ContentAt(bpc, v, ch, size, k);
      }
    }
  }

  lemma ByteWrite(bpc: nat, v: Vol, v': Vol, ch: seq<nat>, off: nat, d: seq<byte>, k: nat)
    requires Readable(bpc, v, ch) && Readable(bpc, v', ch)
    requires forall i, j :: 0 <= i < j < |ch| ==> ch[i] != ch[j]
    requires 0 < |d| && Rem(off, bpc) + |d| <= bpc && Quo(off, bpc) < |ch|
    requires v'.clus == v.clus[ch[Quo(off, bpc)] := Overwrite(v.clus[ch[Quo(off, bpc)]], Rem(off, bpc), d)]
    requires k < Cap(|ch|, bpc)
    ensures ByteAt(bpc, v', ch, k) == if off <= k < off + |d| then d[k - off] else ByteAt(bpc, v, ch, k)
  {
    hide Quo, Rem, Cap, Overwrite;
    QuoBound(k, |ch|, bpc);
    if off <= k < off + |d| {
      QuoStep(off, k - off, bpc);
    } else if Quo(k, bpc) == Quo(off, bpc) {
      QuoRem(k, bpc);
      QuoRem(off, bpc);
    } else {
      assert ch[Quo(k, bpc)] != ch[Quo(off, bpc)];
    }
  }

  // ---------- Ownership ----------

  const FREE := -1
  const OTHER := -2

  /** A directory entry agrees with its chain, and its cursor names a cluster of that chain. */
  ghost predicate FileInv(bpc: nat, fat: seq<nat>, e: Dirent, ch: seq<nat>) {
    && e.fileSize < U32
    && if e.firstClus == 0 then ch == [] && e.fileSize == 0 else
        && IsChain(fat, ch) && ch[0] == e.firstClus
        && e.fileSize <= Cap(|ch|, bpc)
        && e.clusCnt < |ch| && e.curClus == ch[e.clusCnt]
  }

  /**
   The state of all entries over one FAT.  `owner[c]` is the entry whose chain holds cluster `c`,
   `OTHER` for a cluster that was allocated before any of these entries existed, or `FREE`.
   */
  ghost predicate FsInv(bpc: nat, v: Vol, ent: seq<Dirent>, chain: seq<seq<nat>>, owner: seq<int>) {
    && 2 <= |v.fat| <= EOC && |v.clus| == |v.fat| && |owner| == |v.fat| && |chain| == |ent|
    && v.fat[0] != 0 && v.fat[1] != 0
    && (forall c {:trigger owner[c]} :: 2 <= c < |v.fat| ==> owner[c] >= OTHER && (v.fat[c] == 0 <==> owner[c] == FREE))
    && (forall e {:trigger FileInv(bpc, v.fat, ent[e], chain[e])} {:trigger Owns(owner, e, chain[e])} ::
          0 <= e < |ent| ==> FileInv(bpc, v.fat, ent[e], chain[e]) && Owns(owner, e, chain[e]))
    && (forall c {:trigger owner[c]} ::
        2 <= c < |v.fat| && owner[c] >= 0 ==> owner[c] < |chain| && c in chain[owner[c]])
  }

  ghost predicate Owns(owner: seq<int>, e: int, ch: seq<nat>) {
    forall i {:trigger owner[ch[i]]} :: 0 <= i < |ch| ==> ch[i] < |owner| && owner[ch[i]] == e
  }

  predicate IsFree(fat: seq<nat>, c: nat) {
    2 <= c < |fat| && fat[c] == 0
  }

  /** How many clusters are free. */
  ghost function FreeCount(fat: seq<nat>): nat {
    if |fat| <= 2 then 0 else FreeCount(fat[..|fat| - 1]) + if fat[|fat| - 1] == 0 then 1 else 0
  }

  lemma {:induction false} FreeExists(fat: seq<nat>)
    ensures FreeCount(fat) > 0 <==> exists c: nat :: IsFree(fat, c)
  {
    if |fat| > 2 {
      var pre := fat[..|fat| - 1];
      FreeExists(pre);
      if fat[|fat| - 1] == 0 {
        assert IsFree(fat, |fat| - 1);
      } else {
        assert forall c: nat :: IsFree(pre, c) <==> IsFree(fat, c);
      }
    }
  }

  /** Chains of distinct entries share no cluster. */
  lemma ChainsDisjoint(bpc: nat, v: Vol, ent: seq<Dirent>, chain: seq<seq<nat>>, owner: seq<int>, e: nat, e': nat)
    requires FsInv(bpc, v, ent, chain, owner) && e < e' < |ent|
    ensures forall c :: c in chain[e] ==> c !in chain[e']
  {
    forall i, j | 0 <= i < |chain[e]| && 0 <= j < |chain[e']|
      ensures chain[e][i] != chain[e'][j]
    {
      assert owner[chain[e][i]] == e && owner[chain[e'][j]] == e'
        by { assert Owns(owner, e, chain[e]) && Owns(owner, e', chain[e']); }
    }
  }

  /** Beyond the two reserved words, the nonzero FAT words are exactly the chains and the older clusters. */
  lemma AllocatedIsOwned(bpc: nat, v: Vol, ent: seq<Dirent>, chain: seq<seq<nat>>, owner: seq<int>, c: nat)
    requires FsInv(bpc, v, ent, chain, owner) && 2 <= c < |v.fat|
    ensures v.fat[c] != 0 <==> owner[c] == OTHER || exists e :: 0 <= e < |chain| && c in chain[e]
  {
    if owner[c] >= 0 {
      assert c in chain[owner[c]];
    }
    forall e, i | 0 <= e < |chain| && 0 <= i < |chain[e]|
      ensures chain[e][i] == c ==> owner[c] == e
    {
      assert Owns(owner, e, chain[e]);
    }
  }

  // ---------- Entries come and go ----------

  /** No cluster is in two chains. */
  ghost predicate Disjoint(chains: seq<seq<nat>>) {
    forall e, e', i, j {:trigger chains[e][i], chains[e'][j]} ::
      0 <= e < |chains| && 0 <= e' < |chains| && 0 <= i < |chains[e]| && 0 <= j < |chains[e']|
        && chains[e][i] == chains[e'][j]
      ==> e == e'
  }

  ghost predicate In(chains: seq<seq<nat>>, e: int, c: nat) { 0 <= e < |chains| && c in chains[e] }

  ghost predicate InSome(chains: seq<seq<nat>>, c: nat) { exists e :: In(chains, e, c) }

  /** Whose clusters are whose. */
  ghost function OwnerOf(fat: seq<nat>, chains: seq<seq<nat>>, c: nat): (r: int)
    requires c < |fat|
    ensures fat[c] == 0 ==> r == FREE
    ensures fat[c] != 0 ==> if InSome(chains, c) then In(chains, r, c) else r == OTHER
  {
    if fat[c] == 0 then FREE else if InSome(chains, c) then (var e :| In(chains, e, c); e) else OTHER
  }

  ghost function Owners(fat: seq<nat>, chains: seq<seq<nat>>): (r: seq<int>)
    ensures |r| == |fat| && forall c {:trigger r[c]} :: 0 <= c < |fat| ==> r[c] == OwnerOf(fat, chains, c)
  {
    seq(|fat|, c requires 0 <= c < |fat| => OwnerOf(fat, chains, c))
  }

  lemma OwnerHere(fat: seq<nat>, chains: seq<seq<nat>>, e: nat, i: nat)
    requires Disjoint(chains) && e < |chains| && i < |chains[e]| && chains[e][i] < |fat| && fat[chains[e][i]] != 0
    ensures OwnerOf(fat, chains, chains[e][i]) == e
  {
    var c := chains[e][i];
    assert In(chains, e, c);
    var r := OwnerOf(fat, chains, c);
    assert In(chains, r, c);
    var j :| 0 <= j < |chains[r]| && chains[r][j] == c;
    assert chains[e][i] == chains[r][j];
  }

  /** Well-formed chains that share no cluster are a sound state. */
  lemma OwnersInv(bpc: nat, v: Vol, ent: seq<Dirent>, chains: seq<seq<nat>>)
    requires 2 <= |v.fat| <= EOC && |v.clus| == |v.fat| && |chains| == |ent| && v.fat[0] != 0 && v.fat[1] != 0
    requires Disjoint(chains) && forall e :: 0 <= e < |ent| ==> FileInv(bpc, v.fat, ent[e], chains[e])
    ensures FsInv(bpc, v, ent, chains, Owners(v.fat, chains))
    ensures forall c {:trigger Owners(v.fat, chains)[c]} ::
      2 <= c < |v.fat| && Owners(v.fat, chains)[c] == OTHER ==> !InSome(chains, c)
  {
    var owner := Owners(v.fat, chains);
    forall e | 0 <= e < |ent|
      ensures FileInv(bpc, v.fat, ent[e], chains[e]) && Owns(owner, e, chains[e])
    {
      OwnsHere(bpc, v.fat, ent[e], chains, e);
    }
    hide FileInv, Owns, Disjoint;
    forall c | 2 <= c < |v.fat|
      ensures owner[c] >= OTHER && (v.fat[c] == 0 <==> owner[c] == FREE)
      ensures owner[c] >= 0 ==> owner[c] < |chains| && c in chains[owner[c]]
    {
      assert owner[c] == OwnerOf(v.fat, chains, c);
    }
  }

  lemma OwnsHere(bpc: nat, fat: seq<nat>, d: Dirent, chains: seq<seq<nat>>, e: nat)
    requires 2 <= |fat| <= EOC && Disjoint(chains) && e < |chains| && FileInv(bpc, fat, d, chains[e])
    ensures Owns(Owners(fat, chains), e, chains[e])
  {
    hide Disjoint, Cap;
    forall i | 0 <= i < |chains[e]|
      ensures chains[e][i] < |fat| && Owners(fat, chains)[chains[e][i]] == e
    {
      ChainStep(fat, chains[e], i);
      OwnerHere(fat, chains, e, i);
    }
  }

  /** What `read_entry_info` makes of a directory slot: the cursor is at the first cluster. */
  function EntryOf(attribute: nat, firstClus: nat, fileSize: nat): Dirent {
    Dirent(attribute, firstClus, fileSize, firstClus, 0, false)
  }

  /** The entry with its cursor at the first cluster. */
  function Rewound(d: Dirent): Dirent { d.(curClus := d.firstClus, clusCnt := 0) }

  /** The clusters that `from` owned belong to `to`. */
  ghost function HandOver(owner: seq<int>, from: seq<nat>, to: int): (r: seq<int>)
    ensures |r| == |owner|
    ensures forall c {:trigger r[c]} :: 0 <= c < |owner| ==> r[c] == if c in from then to else owner[c]
  {
    seq(|owner|, c requires 0 <= c < |owner| => if c in from then to else owner[c])
  }

  /** An entry whose chain was allocated before and belongs to nobody, or which has no chain, may be added. */
  lemma AttachInv(bpc: nat, v: Vol, ent: seq<Dirent>, chain: seq<seq<nat>>, owner: seq<int>, d: Dirent, ch: seq<nat>)
    requires FsInv(bpc, v, ent, chain, owner) && FileInv(bpc, v.fat, d, ch) && Owns(owner, OTHER, ch)
    ensures FsInv(bpc, v, ent + [d], chain + [ch], HandOver(owner, ch, |ent|))
  {
    var ent', chain', owner' := ent + [d], chain + [ch], HandOver(owner, ch, |ent|);
    forall i | 0 <= i < |ch|
      ensures ch[i] < |owner| && owner[ch[i]] == OTHER
    {
    }
    forall e | 0 <= e < |ent'|
      ensures FileInv(bpc, v.fat, ent'[e], chain'[e]) && Owns(owner', e, chain'[e])
    {
      if e < |ent| {
        assert FileInv(bpc, v.fat, ent[e], chain[e]) && Owns(owner, e, chain[e]);
        FileFrame(bpc, v.fat, v.fat, owner, owner', ent[e], chain[e], e);
      }
    }
    forall c | 2 <= c < |v.fat| && owner'[c] >= 0
      ensures owner'[c] < |chain'| && c in chain'[owner'[c]]
    {
      assert owner[c] >= 0 && c !in ch ==> c in chain[owner[c]];
    }
  }

  /** An entry that is no longer in use leaves its chain to be read again later. */
  lemma DetachInv(bpc: nat, v: Vol, ent: seq<Dirent>, chain: seq<seq<nat>>, owner: seq<int>, e: nat, d: Dirent)
    requires FsInv(bpc, v, ent, chain, owner) && e < |ent| && d.firstClus == 0 && d.fileSize == 0
    ensures FsInv(bpc, v, ent[e := d], chain[e := []], HandOver(owner, chain[e], OTHER))
    ensures Owns(HandOver(owner, chain[e], OTHER), OTHER, chain[e])
  {
    var ent', chain', owner' := ent[e := d], chain[e := []], HandOver(owner, chain[e], OTHER);
    assert Owns(owner, e, chain[e]);
    forall x | 0 <= x < |ent'|
      ensures FileInv(bpc, v.fat, ent'[x], chain'[x]) && Owns(owner', x, chain'[x])
    {
      if x != e {
        assert FileInv(bpc, v.fat, ent[x], chain[x]) && Owns(owner, x, chain[x]);
        FileFrame(bpc, v.fat, v.fat, owner, owner', ent[x], chain[x], x);
      }
    }
    forall c | 2 <= c < |v.fat| && owner'[c] >= 0
      ensures owner'[c] < |chain'| && c in chain'[owner'[c]]
    {
      assert owner[c] >= 0 ==> c in chain[owner[c]];
    }
  }

  // ---------- Steps on the tables ----------

  const LAST_CLUS := EOC + 7

  /** An entry is unaffected by changes to words it does not own. */
  lemma FileFrame(bpc: nat, fat: seq<nat>, fat': seq<nat>, owner: seq<int>, owner': seq<int>,
                  d: Dirent, ch: seq<nat>, e: int)
    requires FileInv(bpc, fat, d, ch) && Owns(owner, e, ch)
    requires |fat'| == |fat| == |owner| == |owner'|
    requires forall x :: 0 <= x < |owner| && owner[x] == e ==> owner'[x] == e && fat'[x] == fat[x]
    ensures FileInv(bpc, fat', d, ch) && Owns(owner', e, ch)
  {
  }

  /** Marking `c` allocated, zeroing it and linking it after the last cluster of entry `e`. */
  lemma GrowChain(bpc: nat, v: Vol, ent: seq<Dirent>, chain: seq<seq<nat>>, owner: seq<int>, e: nat, c: nat, v': Vol)
    requires FsInv(bpc, v, ent, chain, owner) && e < |ent| && chain[e] != [] && IsFree(v.fat, c)
    requires FileInv(bpc, v.fat, ent[e], chain[e])
    requires v'.fat == v.fat[c := LAST_CLUS][chain[e][|chain[e]| - 1] := c] && |v'.clus| == |v.clus|
    ensures FsInv(bpc, v', ent, chain[e := chain[e] + [c]], owner[c := e])
  {
    var ch := chain[e];
    var chain', owner' := chain[e := ch + [c]], owner[c := e];
    GrowFile(v.fat, ch, c);
    CapMono(|ch|, |ch| + 1, bpc);
    assert owner[c] == FREE && Owns(owner, e, ch);
    forall e' | 0 <= e' < |ent| && e' != e
      ensures FileInv(bpc, v'.fat, ent[e'], chain[e']) && Owns(owner', e', chain[e'])
    {
      FileFrame(bpc, v.fat, v'.fat, owner, owner', ent[e'], chain[e'], e');
    }
    GrowOwners(v.fat, chain, owner, e, c);
  }

  lemma GrowOwners(fat: seq<nat>, chain: seq<seq<nat>>, owner: seq<int>, e: nat, c: nat)
    requires |owner| == |fat| && e < |chain| && c < |fat|
    requires forall c :: 2 <= c < |fat| && owner[c] >= 0 ==> owner[c] < |chain| && c in chain[owner[c]]
    ensures var chain', owner' := chain[e := chain[e] + [c]], owner[c := e];
      forall x :: 2 <= x < |fat| && owner'[x] >= 0 ==> owner'[x] < |chain'| && x in chain'[owner'[x]]
  {
    var chain' := chain[e := chain[e] + [c]];
    assert chain'[e][|chain[e]|] == c;
    assert forall x :: x in chain[e] ==> x in chain'[e];
  }

  lemma GrowFile(fat: seq<nat>, ch: seq<nat>, c: nat)
    requires IsChain(fat, ch) && |fat| <= EOC && IsFree(fat, c)
    ensures c !in ch && IsChain(fat[c := LAST_CLUS][ch[|ch| - 1] := c], ch + [c])
  {
    var ch' := ch + [c];
    var fat' := fat[c := LAST_CLUS][ch[|ch| - 1] := c];
    forall i | 0 <= i < |ch|
      ensures ch[i] != c
    {
      assert i < |ch| - 1 ==> fat[ch[i]] == ch[i + 1];
    }
    forall i | 0 <= i < |ch'| - 1
      ensures fat'[ch'[i]] == ch'[i + 1]
    {
      if i < |ch| - 1 {
        ChainAcyclic(fat, ch, i, |ch| - 1);
        assert fat[ch[i]] == ch[i + 1];
      }
    }
  }

  /** Giving an empty entry its first cluster. */
  lemma StartChain(bpc: nat, v: Vol, ent: seq<Dirent>, chain: seq<seq<nat>>, owner: seq<int>, e: nat, c: nat)
    requires FsInv(bpc, v, ent, chain, owner) && e < |ent| && chain[e] == [] && IsFree(v.fat, c)
    ensures FsInv(bpc, Vol(v.fat[c := LAST_CLUS], v.clus[c := Zeros(bpc)]),
                  ent[e := ent[e].(firstClus := c, curClus := c, clusCnt := 0, dirty := true)],
                  chain[e := [c]], owner[c := e])
  {
    assert owner[c] == FREE;
    var v' := Vol(v.fat[c := LAST_CLUS], v.clus[c := Zeros(bpc)]);
    var ent' := ent[e := ent[e].(firstClus := c, curClus := c, clusCnt := 0, dirty := true)];
    var chain', owner' := chain[e := [c]], owner[c := e];
    forall e' | 0 <= e' < |ent|
      ensures FileInv(bpc, v'.fat, ent'[e'], chain'[e']) && Owns(owner', e', chain'[e'])
    {
      assert FileInv(bpc, v.fat, ent[e'], chain[e']) && Owns(owner, e', chain[e']);
    }
    forall x | 2 <= x < |v'.fat| && owner'[x] >= 0
      ensures owner'[x] < |chain'| && x in chain'[owner'[x]]
    {
      if x == c {
        assert chain'[e][0] == c;
      }
    }
  }

  /** `fat` with the words of `ch` set to zero. */
  ghost function Released(fat: seq<nat>, ch: seq<nat>): (r: seq<nat>)
    requires forall i :: 0 <= i < |ch| ==> ch[i] < |fat|
    ensures |r| == |fat|
    ensures forall c :: 0 <= c < |fat| ==> r[c] == if c in ch then 0 else fat[c]
  {
    seq(|fat|, c requires 0 <= c < |fat| => if c in ch then 0 else fat[c])
  }

  /** Releasing the whole chain of entry `e` and emptying the entry. */
  lemma DropChain(bpc: nat, v: Vol, ent: seq<Dirent>, chain: seq<seq<nat>>, owner: seq<int>, e: nat, owner': seq<int>)
    requires FsInv(bpc, v, ent, chain, owner) && e < |ent|
    requires |owner'| == |owner|
    requires forall c :: 0 <= c < |owner| ==> owner'[c] == if owner[c] == e then FREE else owner[c]
    ensures forall i :: 0 <= i < |chain[e]| ==> 2 <= chain[e][i] < |v.fat|
    ensures FsInv(bpc, v.(fat := Released(v.fat, chain[e])),
                  ent[e := ent[e].(firstClus := 0, fileSize := 0, dirty := true)], chain[e := []], owner')
  {
    var ch := chain[e];
    assert FileInv(bpc, v.fat, ent[e], ch) && Owns(owner, e, ch);
    var fat', chain' := Released(v.fat, ch), chain[e := []];
    var ent' := ent[e := ent[e].(firstClus := 0, fileSize := 0, dirty := true)];
    forall c | 0 <= c < |fat'| && c in ch
      ensures owner[c] == e && c >= 2
    {
      var i :| 0 <= i < |ch| && ch[i] == c;
    }
    forall e' | 0 <= e' < |ent|
      ensures FileInv(bpc, fat', ent'[e'], chain'[e']) && Owns(owner', e', chain'[e'])
    {
      assert FileInv(bpc, v.fat, ent[e'], chain[e']) && Owns(owner, e', chain[e']);
      forall i | 0 <= i < |chain'[e']|
        ensures chain'[e'][i] !in ch
      {
        assert owner[chain'[e'][i]] == e';
      }
    }
  }

  function CursorAt(d: Dirent, ch: seq<nat>, k: nat): Dirent
    requires k < |ch|
  {
    d.(curClus := ch[k], clusCnt := k)
  }

  /** Moving the cursor of entry `e` to the `k`-th cluster of its chain. */
  lemma MoveCursor(bpc: nat, v: Vol, ent: seq<Dirent>, chain: seq<seq<nat>>, owner: seq<int>, e: nat, k: nat)
    requires FsInv(bpc, v, ent, chain, owner) && e < |ent| && k < |chain[e]|
    ensures FsInv(bpc, v, ent[e := CursorAt(ent[e], chain[e], k)], chain, owner)
  {
    var ent' := ent[e := CursorAt(ent[e], chain[e], k)];
    forall e' | 0 <= e' < |ent|
      ensures FileInv(bpc, v.fat, ent'[e'], chain[e'])
    {
      assert FileInv(bpc, v.fat, ent[e'], chain[e']);
    }
  }

  /** Allocating `c` lowers the count of free clusters by one. */
  lemma {:induction false} FreeAfter(fat: seq<nat>, fat': seq<nat>, c: nat)
    requires IsFree(fat, c) && |fat'| == |fat|
    requires forall x :: 2 <= x < |fat| ==> (fat'[x] == 0 <==> fat[x] == 0 && x != c)
    ensures FreeCount(fat') == FreeCount(fat) - 1
  {
    var n := |fat| - 1;
    if c < n {
      FreeAfter(fat[..n], fat'[..n], c);
    } else {
      FreeSame(fat[..n], fat'[..n]);
    }
  }

  lemma {:induction false} FreeSame(fat: seq<nat>, fat': seq<nat>)
    requires |fat'| == |fat|
    requires forall x :: 2 <= x < |fat| ==> (fat'[x] == 0 <==> fat[x] == 0)
    ensures FreeCount(fat') == FreeCount(fat)
  {
    if |fat| > 2 {
      FreeSame(fat[..|fat| - 1], fat'[..|fat| - 1]);
    }
  }

  /**
   From `v` to `v'` one chain grew from `ch` to `ch'`: the new clusters were free and are now zero,
   and no cluster that was in use changed.
   */
  ghost predicate Extends(bpc: nat, v: Vol, ch: seq<nat>, v': Vol, ch': seq<nat>) {
    && |v'.fat| == |v.fat| && |v'.clus| == |v.clus| == |v.fat| && ch <= ch'
    && (forall i {:trigger IsFree(v.fat, ch'[i])} ::
        |ch| <= i < |ch'| ==> IsFree(v.fat, ch'[i]) && v'.clus[ch'[i]] == Zeros(bpc))
    && (forall c {:trigger v'.clus[c]} ::
        0 <= c < |v.fat| && v.fat[c] != 0 ==> v'.fat[c] != 0 && v'.clus[c] == v.clus[c])
    && FreeCount(v'.fat) + |ch'| == FreeCount(v.fat) + |ch|
  }

  lemma ExtendMore(bpc: nat, v: Vol, ch: seq<nat>, v': Vol, ch': seq<nat>, c: nat, v'': Vol)
    requires Extends(bpc, v, ch, v', ch') && ch' != [] && |v.fat| <= EOC && IsChain(v'.fat, ch')
    requires IsFree(v'.fat, c)
    requires v'' == Vol(v'.fat[c := LAST_CLUS][ch'[|ch'| - 1] := c], v'.clus[c := Zeros(bpc)])
    ensures Extends(bpc, v, ch, v'', ch' + [c])
  {
    GrowFile(v'.fat, ch', c);
    assert v'.fat[ch'[|ch'| - 1]] != 0;
    FreeAfter(v'.fat, v''.fat, c);
    forall i | |ch| <= i < |ch' + [c]|
      ensures IsFree(v.fat, (ch' + [c])[i]) && v''.clus[(ch' + [c])[i]] == Zeros(bpc)
    {
      if i < |ch'| {
        assert IsFree(v.fat, ch'[i]) && ch'[i] != c;
      } else {
        assert v'.clus[c] == v'.clus[c];
      }
    }
    forall x | 0 <= x < |v.fat| && v.fat[x] != 0
      ensures v''.fat[x] != 0 && v''.clus[x] == v.clus[x]
    {
      assert v'.clus[x] == v.clus[x];
    }
  }

  /** The clusters of any entry have full size. */
  lemma EntryReadable(bpc: nat, v: Vol, ent: seq<Dirent>, chain: seq<seq<nat>>, owner: seq<int>, e: nat)
    requires FsInv(bpc, v, ent, chain, owner) && e < |ent| && bpc > 0
    requires forall c {:trigger v.clus[c]} :: 2 <= c < |v.clus| ==> |v.clus[c]| == bpc
    ensures Readable(bpc, v, chain[e]) && FileInv(bpc, v.fat, ent[e], chain[e])
    ensures ent[e].fileSize <= Cap(|chain[e]|, bpc)
    ensures forall i, j :: 0 <= i < j < |chain[e]| ==> chain[e][i] != chain[e][j]
  {
    var ch := chain[e];
    assert FileInv(bpc, v.fat, ent[e], ch);
    forall i, j | 0 <= i < j < |ch|
      ensures ch[i] != ch[j]
    {
      ChainAcyclic(v.fat, ch, i, j);
    }
  }

  /** The chain of an entry, one link at a time. */
  lemma ChainStep(fat: seq<nat>, ch: seq<nat>, k: nat)
    requires IsChain(fat, ch) && k < |ch| && |fat| <= EOC
    ensures fat[ch[k]] >= EOC <==> k == |ch| - 1
    ensures k < |ch| - 1 ==> fat[ch[k]] == ch[k + 1]
  {
    if k < |ch| - 1 {
      assert fat[ch[k]] == ch[k + 1];
    }
  }

  // ---------- What a write leaves alone ----------

  ghost predicate SameClusters(v: Vol, v': Vol, ch: seq<nat>) {
    && |v'.clus| == |v.clus|
    && (forall i :: 0 <= i < |ch| ==> ch[i] < |v.clus|)
    && (forall i {:trigger v'.clus[ch[i]]} :: 0 <= i < |ch| ==> v'.clus[ch[i]] == v.clus[ch[i]])
  }

  /** No entry other than `e` sees a difference between `v` and `v'`. */
  ghost predicate OthersKept(v: Vol, v': Vol, chain: seq<seq<nat>>, e: nat) {
    && |v'.clus| == |v.clus|
    && (forall x {:trigger SameClusters(v, v', chain[x])} ::
        0 <= x < |chain| && x != e ==> SameClusters(v, v', chain[x]))
  }

  lemma OthersKeptTrans(v: Vol, v': Vol, v'': Vol, chain: seq<seq<nat>>, chain': seq<seq<nat>>, e: nat)
    requires OthersKept(v, v', chain, e) && OthersKept(v', v'', chain', e)
    requires e < |chain| && |chain'| == |chain| && chain' == chain[e := chain'[e]]
    ensures OthersKept(v, v'', chain, e) && OthersKept(v, v'', chain', e)
  {
    forall x | 0 <= x < |chain| && x != e
      ensures SameClusters(v, v'', chain[x])
    {
      assert SameClusters(v, v', chain[x]) && SameClusters(v', v'', chain'[x]);
      forall i | 0 <= i < |chain[x]|
        ensures v''.clus[chain[x][i]] == v.clus[chain[x][i]]
      {
        assert v'.clus[chain[x][i]] == v.clus[chain[x][i]];
      }
    }
  }

  /** Growing the chain of `e` leaves the clusters of the other entries, and its own old ones, alone. */
  lemma ExtendsKeeps(bpc: nat, v: Vol, ent: seq<Dirent>, chain: seq<seq<nat>>, owner: seq<int>,
                     v': Vol, ch': seq<nat>, e: nat)
    requires FsInv(bpc, v, ent, chain, owner) && e < |ent| && Extends(bpc, v, chain[e], v', ch')
    ensures OthersKept(v, v', chain, e) && SameClusters(v, v', chain[e])
    ensures chain[e] <= ch' && FreeCount(v'.fat) + |ch'| == FreeCount(v.fat) + |chain[e]|
  {
    forall x | 0 <= x < |chain|
      ensures SameClusters(v, v', chain[x])
    {
      assert FileInv(bpc, v.fat, ent[x], chain[x]);
      forall i | 0 <= i < |chain[x]|
        ensures v'.clus[chain[x][i]] == v.clus[chain[x][i]]
      {
        if chain[x] != [] {
          ChainStep(v.fat, chain[x], i);
        }
      }
    }
  }

  /** Overwriting one cluster of `e` leaves the other entries alone. */
  lemma WriteKeeps(bpc: nat, v: Vol, ent: seq<Dirent>, chain: seq<seq<nat>>, owner: seq<int>,
                   v': Vol, e: nat, k: nat, w: seq<byte>)
    requires FsInv(bpc, v, ent, chain, owner) && e < |ent| && k < |chain[e]| && chain[e][k] < |v.clus|
    requires v' == v.(clus := v.clus[chain[e][k] := w])
    ensures OthersKept(v, v', chain, e)
  {
    assert Owns(owner, e, chain[e]) && owner[chain[e][k]] == e;
    forall x | 0 <= x < |chain| && x != e
      ensures SameClusters(v, v', chain[x])
    {
      assert FileInv(bpc, v.fat, ent[x], chain[x]) && Owns(owner, x, chain[x]);
      assert forall i :: 0 <= i < |chain[x]| ==> owner[chain[x][i]] == x;
    }
  }

  /** Changing only cluster contents keeps the invariant. */
  lemma ContentsFree(bpc: nat, v: Vol, ent: seq<Dirent>, chain: seq<seq<nat>>, owner: seq<int>, v': Vol)
    requires FsInv(bpc, v, ent, chain, owner) && v'.fat == v.fat && |v'.clus| == |v.clus|
    ensures FsInv(bpc, v', ent, chain, owner)
  {
  }

  /** The entries differ at most in the cursor of `e`. */
  ghost predicate SameButCursor(ent: seq<Dirent>, ent': seq<Dirent>, e: nat) {
    && |ent'| == |ent| && e < |ent|
    && ent' == ent[e := ent[e].(curClus := ent'[e].curClus, clusCnt := ent'[e].clusCnt)]
  }

  lemma SameButCursorTrans(a: seq<Dirent>, b: seq<Dirent>, c: seq<Dirent>, e: nat)
    requires SameButCursor(a, b, e) && SameButCursor(b, c, e)
    ensures SameButCursor(a, c, e)
  {
    UpdateTwice(a, e, b[e], c[e]);
  }

  /** A piece of one cluster is a slice of the file. */
  lemma ContentSlice(bpc: nat, v: Vol, ch: seq<nat>, size: nat, off: nat, m: nat)
    requires Readable(bpc, v, ch) && off + m <= size <= Cap(|ch|, bpc)
    requires Rem(off, bpc) + m <= bpc && Quo(off, bpc) < |ch|
    ensures v.clus[ch[Quo(off, bpc)]][Rem(off, bpc)..Rem(off, bpc) + m] == Content(bpc, v, ch, size)[off..off + m]
  {
    hide Quo, Rem, Cap, Content;
    var file, w := Content(bpc, v, ch, size), v.clus[ch[Quo(off, bpc)]];
    forall k: nat | off <= k < off + m
      ensures file[k] == w[Rem(off, bpc) + (k - off)]
    {
      FileByte(bpc, v, ch, size, off, k);
    }
    SliceEq(w, Rem(off, bpc), file, off, m);
  }

  lemma FileByte(bpc: nat, v: Vol, ch: seq<nat>, size: nat, off: nat, k: nat)
    requires Readable(bpc, v, ch) && off <= k < size <= Cap(|ch|, bpc)
    requires Rem(off, bpc) + (k - off) < bpc && Quo(off, bpc) < |ch|
    ensures Content(bpc, v, ch, size)[k] == v.clus[ch[Quo(off, bpc)]][Rem(off, bpc) + (k - off)]
  {
    hide Quo, Rem, Cap;
    ContentAt(bpc, v, ch, size, k);
    ByteInCluster(bpc, v, ch, off, k);
  }

  lemma ByteInCluster(bpc: nat, v: Vol, ch: seq<nat>, off: nat, k: nat)
    requires Readable(bpc, v, ch) && off <= k < Cap(|ch|, bpc)
    requires Rem(off, bpc) + (k - off) < bpc && Quo(off, bpc) < |ch|
    ensures ByteAt(bpc, v, ch, k) == v.clus[ch[Quo(off, bpc)]][Rem(off, bpc) + (k - off)]
  {
    hide Quo, Rem, Cap;
    QuoStep(off, k - off, bpc);
  }

  lemma Resize(bpc: nat, v: Vol, ent: seq<Dirent>, chain: seq<seq<nat>>, owner: seq<int>, e: nat, size: nat)
    requires FsInv(bpc, v, ent, chain, owner) && e < |ent| && chain[e] != []
    requires size <= Cap(|chain[e]|, bpc) && size < U32
    ensures FsInv(bpc, v, ent[e := ent[e].(fileSize := size, dirty := true)], chain, owner)
  {
    var ent' := ent[e := ent[e].(fileSize := size, dirty := true)];
    forall x | 0 <= x < |ent|
      ensures FileInv(bpc, v.fat, ent'[x], chain[x]) && Owns(owner, x, chain[x])
    {
      assert FileInv(bpc, v.fat, ent[x], chain[x]);
    }
  }

  /** Allocating a free cluster changes no cluster of any entry. */
  lemma AllocKeeps(bpc: nat, v: Vol, ent: seq<Dirent>, chain: seq<seq<nat>>, owner: seq<int>, v': Vol, e: nat, c: nat)
    requires FsInv(bpc, v, ent, chain, owner) && IsFree(v.fat, c)
    requires v'.clus == v.clus[c := Zeros(bpc)]
    ensures OthersKept(v, v', chain, e)
  {
    forall x | 0 <= x < |chain| && x != e
      ensures SameClusters(v, v', chain[x])
    {
      assert FileInv(bpc, v.fat, ent[x], chain[x]) && Owns(owner, x, chain[x]);
      forall i | 0 <= i < |chain[x]|
        ensures chain[x][i] != c
      {
        assert owner[chain[x][i]] == x && owner[c] == FREE;
      }
    }
  }

  lemma SelfKept(bpc: nat, v: Vol, ent: seq<Dirent>, chain: seq<seq<nat>>, owner: seq<int>, e: nat)
    requires FsInv(bpc, v, ent, chain, owner)
    ensures OthersKept(v, v, chain, e)
  {
    forall x | 0 <= x < |chain|
      ensures SameClusters(v, v, chain[x])
    {
      assert FileInv(bpc, v.fat, ent[x], chain[x]);
    }
  }

  /** Entries other than `e` keep their bytes when their clusters are kept. */
  lemma OthersSee(bpc: nat, v: Vol, ent: seq<Dirent>, chain: seq<seq<nat>>, owner: seq<int>,
                  v': Vol, ent': seq<Dirent>, chain': seq<seq<nat>>, owner': seq<int>, e: nat)
    requires FsInv(bpc, v, ent, chain, owner) && FsInv(bpc, v', ent', chain', owner') && bpc > 0
    requires forall c {:trigger v.clus[c]} :: 2 <= c < |v.clus| ==> |v.clus[c]| == bpc
    requires forall c {:trigger v'.clus[c]} :: 2 <= c < |v'.clus| ==> |v'.clus[c]| == bpc
    requires e < |ent| == |ent'| && ent' == ent[e := ent'[e]] && chain' == chain[e := chain'[e]]
    requires OthersKept(v, v', chain, e)
    ensures forall x :: 0 <= x < |ent| && x != e ==>
      && chain'[x] == chain[x] && ent'[x] == ent[x]
      && Readable(bpc, v, chain[x]) && Readable(bpc, v', chain[x]) && ent[x].fileSize <= Cap(|chain[x]|, bpc)
      && Content(bpc, v', chain[x], ent[x].fileSize) == Content(bpc, v, chain[x], ent[x].fileSize)
      && Content(bpc, v', chain[x], Cap(|chain[x]|, bpc)) == Content(bpc, v, chain[x], Cap(|chain[x]|, bpc))
  {
    forall x | 0 <= x < |ent| && x != e
      ensures
        && chain'[x] == chain[x] && ent'[x] == ent[x]
        && Readable(bpc, v, chain[x]) && Readable(bpc, v', chain[x]) && ent[x].fileSize <= Cap(|chain[x]|, bpc)
        && Content(bpc, v', chain[x], ent[x].fileSize) == Content(bpc, v, chain[x], ent[x].fileSize)
        && Content(bpc, v', chain[x], Cap(|chain[x]|, bpc)) == Content(bpc, v, chain[x], Cap(|chain[x]|, bpc))
    {
      EntryReadable(bpc, v, ent, chain, owner, x);
      EntryReadable(bpc, v', ent', chain', owner', x);
      assert SameClusters(v, v', chain[x]);
      ContentFrame(bpc, v, v', chain[x], chain[x], ent[x].fileSize);
      ContentFrame(bpc, v, v', chain[x], chain[x], Cap(|chain[x]|, bpc));
    }
  }

  /** `dirty` was set exactly when what the directory must be told has changed, and is never taken back. */
  predicate Touched(d: Dirent, d': Dirent) {
    d'.dirty <==> d.dirty || d'.firstClus != d.firstClus || d'.fileSize != d.fileSize
  }

  /** What writing to entry `e` may do to the tables: extend its chain, move its cursor, change its own clusters. */
  ghost predicate Wrote(v: Vol, ent: seq<Dirent>, chain: seq<seq<nat>>,
                        v': Vol, ent': seq<Dirent>, chain': seq<seq<nat>>, e: nat) {
    && SameButCursor(ent, ent', e)
    && |chain'| == |chain| == |ent| && chain' == chain[e := chain'[e]] && chain[e] <= chain'[e]
    && FreeCount(v'.fat) + |chain'[e]| == FreeCount(v.fat) + |chain[e]|
    && OthersKept(v, v', chain, e)
  }

  lemma WroteSelf(bpc: nat, v: Vol, ent: seq<Dirent>, chain: seq<seq<nat>>, owner: seq<int>, e: nat)
    requires FsInv(bpc, v, ent, chain, owner) && e < |ent|
    ensures Wrote(v, ent, chain, v, ent, chain, e)
  {
    SelfKept(bpc, v, ent, chain, owner, e);
  }

  lemma WroteTrans(v: Vol, ent: seq<Dirent>, chain: seq<seq<nat>>, v': Vol, ent': seq<Dirent>, chain': seq<seq<nat>>,
                   v'': Vol, ent'': seq<Dirent>, chain'': seq<seq<nat>>, e: nat)
    requires Wrote(v, ent, chain, v', ent', chain', e) && Wrote(v', ent', chain', v'', ent'', chain'', e)
    ensures Wrote(v, ent, chain, v'', ent'', chain'', e)
  {
    SameButCursorTrans(ent, ent', ent'', e);
    UpdateTwice(chain, e, chain'[e], chain''[e]);
    OthersKeptTrans(v, v', v'', chain, chain', e);
  }

  // ---------- Truncation ----------

  /** How many FAT words of clusters are nonzero. */
  ghost function UsedCount(fat: seq<nat>): nat {
    if |fat| <= 2 then 0 else UsedCount(fat[..|fat| - 1]) + if fat[|fat| - 1] != 0 then 1 else 0
  }

  /** Clearing a nonzero word lowers the count. */
  lemma {:induction false} UsedDrops(fat: seq<nat>, c: nat)
    requires 2 <= c < |fat|
    ensures UsedCount(fat[c := 0]) == UsedCount(fat) - if fat[c] != 0 then 1 else 0
  {
    var n := |fat| - 1;
    if c < n {
      UsedDrops(fat[..n], c);
      assert fat[c := 0][..n] == fat[..n][c := 0];
    } else {
      assert fat[c := 0][..n] == fat[..n];
    }
  }

  /** The words that following and clearing links from `c` clears, for any FAT content whatever. */
  ghost function Cleared(fat: seq<nat>, c: nat): (r: seq<nat>)
    ensures |r| == |fat|
    decreases UsedCount(fat), if 2 <= c < |fat| then 1 else 0
  {
    if 2 <= c < |fat| && c < EOC then
      UsedDrops(fat, c);
      Cleared(fat[c := 0], fat[c])
    else fat
  }

  /** On a well-formed chain exactly the words of the chain are cleared. */
  lemma {:induction false} ClearedChain(fat: seq<nat>, ch: seq<nat>)
    requires IsChain(fat, ch) && |fat| <= EOC
    ensures Cleared(fat, ch[0]) == Released(fat, ch)
    decreases |ch|
  {
    var c, fat' := ch[0], fat[ch[0] := 0];
    if |ch| > 1 {
      var rest := ch[1..];
      assert fat[c] == ch[1];
      forall i | 0 <= i < |rest|
        ensures rest[i] != c
      {
        ChainAcyclic(fat, ch, 0, i + 1);
      }
      assert forall i {:trigger rest[i]} :: 0 <= i < |rest| - 1 ==> fat[ch[i + 1]] == ch[i + 2];
      ClearedChain(fat', rest);
      assert forall x :: x in ch <==> x == c || x in rest;
      assert Released(fat', rest) == Released(fat, ch);
    } else {
      assert ch == [c];
      assert Cleared(fat', fat[c]) == fat';
    }
  }

  lemma TruncKeeps(v: Vol, v': Vol, chain: seq<seq<nat>>, e: nat)
    requires OthersKept(v, v, chain, e) && v'.clus == v.clus
    ensures OthersKept(v, v', chain, e)
  {
    forall x | 0 <= x < |chain| && x != e
      ensures SameClusters(v, v', chain[x])
    {
      assert SameClusters(v, v, chain[x]);
    }
  }
}
