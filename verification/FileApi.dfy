/**
 Reading and writing open files that are directory entries (kernel/fs/file.c:128-232).  The `uint`
 parameters of `eread` and `ewrite` receive an `int`, so a negative count arrives as a large one.
 */
module FileApi {
  import opened Bytes
  import opened DivMod
  import opened Fat32Layout
  import opened Fat32Chain
  import opened Fat32

  const INT_MAX := 0x7fff_ffff

  function ToUint(n: int): nat { n % U32 }

  function ToInt(n: int): int { if n > INT_MAX then n - U32 else n }

  // ---------- What reads return ----------

  /** What one read of `n` bytes at `off` returns. */
  function Piece(content: seq<byte>, off: nat, n: nat): (r: seq<byte>)
    ensures |r| <= n && (off <= |content| ==> off + |r| <= |content| && r == content[off..off + |r|])
  {
    if off > |content| || off + n >= U32 then []
    else if off + n > |content| then content[off..]
    else content[off..off + n]
  }

  /** The results of reads one after the other, each starting where the one before ended. */
  function Pieces(content: seq<byte>, off: nat, counts: seq<nat>): seq<seq<byte>>
    decreases |counts|
  {
    if counts == [] then []
    else
      var r := Piece(content, off, counts[0]);
      [r] + Pieces(content, off + |r|, counts[1..])
  }

  function Flat(pieces: seq<seq<byte>>): seq<byte> {
    if pieces == [] then [] else pieces[0] + Flat(pieces[1..])
  }

  /** Where a run of reads ends. */
  function EndOff(content: seq<byte>, off: nat, counts: seq<nat>): nat {
    off + |Flat(Pieces(content, off, counts))|
  }

  /** Any sequence of reads returns consecutive pieces of the file: put together they are the content from the start. */
  lemma {:induction false} ReadsAreConsecutive(content: seq<byte>, off: nat, counts: seq<nat>)
    requires off <= |content|
    ensures EndOff(content, off, counts) <= |content|
    ensures Flat(Pieces(content, off, counts)) == content[off..EndOff(content, off, counts)]
    decreases |counts|
  {
    if counts != [] {
      var r := Piece(content, off, counts[0]);
      ReadsAreConsecutive(content, off + |r|, counts[1..]);
      var ps := Pieces(content, off, counts);
      assert ps[1..] == Pieces(content, off + |r|, counts[1..]);
      assert content[off..off + |r|] + content[off + |r|..EndOff(content, off, counts)] ==
        content[off..EndOff(content, off, counts)];
    }
  }

  function Sum(counts: seq<nat>): nat { if counts == [] then 0 else counts[0] + Sum(counts[1..]) }

  /** Reads go as far as they were asked to, or to the end of the file. */
  lemma {:induction false} ReadsReachEnd(content: seq<byte>, off: nat, counts: seq<nat>)
    requires off <= |content| && forall i :: 0 <= i < |counts| ==> |content| + counts[i] < U32
    ensures EndOff(content, off, counts) == if off + Sum(counts) <= |content| then off + Sum(counts) else |content|
    decreases |counts|
  {
    if counts != [] {
      var r := Piece(content, off, counts[0]);
      ReadsReachEnd(content, off + |r|, counts[1..]);
      var ps := Pieces(content, off, counts);
      assert ps[1..] == Pieces(content, off + |r|, counts[1..]);
    }
  }

  // ---------- Open files ----------

  class OpenFile {
    const ep: nat
    const readable: bool
    const writable: bool
    var off: nat

    ghost predicate Valid(fs: FileSystem)
      reads this, fs
    {
      fs.Valid() && ep < |fs.ent| && off < U32
    }

    constructor (entry: nat, r: bool, w: bool)
      ensures ep == entry && readable == r && writable == w && off == 0
    {
      ep, readable, writable, off := entry, r, w, 0;
    }

    /** `fileread`: the next piece of the file, and the offset moves behind it. */
    method FileRead(fs: FileSystem, n: int) returns (ret: int, data: seq<byte>)
      requires Valid(fs) && -INT_MAX - 1 <= n <= INT_MAX
      modifies this, fs
      ensures Valid(fs) && fs.v == old(fs.v) && fs.blocks == old(fs.blocks) && fs.chain == old(fs.chain)
      ensures SameButCursor(old(fs.ent), fs.ent, ep)
      ensures !readable ==> ret == -1 && data == [] && off == old(off)
      ensures readable ==>
        data == if IsDirectory(old(fs.ent)[ep].attribute) then [] else Piece(old(fs.File(ep)), old(off), ToUint(n))
      ensures readable ==> ret == ToInt(|data|) && off == if ret > 0 then old(off) + ret else old(off)
      ensures readable && n >= 0 ==> ret == |data| && off == old(off) + |data|
    {
      hide Content, Quo, Rem, Cap, FsInv, Rep, SameButCursor;
      if !readable {
        SameSelf(fs.ent, ep);
        return -1, [];
      }
      SizeOk(fs, ep);
      data := fs.ERead(ep, off, ToUint(n));
      SameLen(old(fs.ent), fs.ent, ep);
      ret := ToInt(|data|);
      if ret > 0 {
        off := off + ret;
      }
    }

    /** `fileread_at`: the same without moving the offset. */
    method FileReadAt(fs: FileSystem, offset: nat, n: int) returns (ret: int, data: seq<byte>)
      requires Valid(fs) && n <= INT_MAX
      modifies fs
      ensures Valid(fs) && fs.v == old(fs.v) && fs.blocks == old(fs.blocks) && fs.chain == old(fs.chain)
      ensures SameButCursor(old(fs.ent), fs.ent, ep)
      ensures n < 0 || offset >= U32 ==> ret == -1 && data == []
      ensures 0 <= n && offset < U32 ==> ret == |data|
      ensures 0 <= n && offset < U32 ==>
        data == if IsDirectory(old(fs.ent)[ep].attribute) then [] else Piece(old(fs.File(ep)), offset, n)
    {
      hide Content, Quo, Rem, Cap, FsInv, Rep, SameButCursor;
      if n < 0 || offset > 0xffff_ffff {
        SameSelf(fs.ent, ep);
        return -1, [];
      }
      data := fs.ERead(ep, offset, n);
      SameLen(old(fs.ent), fs.ent, ep);
      ret := |data|;
    }

    /**
     `filewrite`: all `n` bytes are spliced in at the offset, which moves behind them, or nothing
     changes.  `ok` is false when the file system ran out of clusters, which stops the kernel.
     */
    method FileWrite(fs: FileSystem, src: seq<byte>, n: int) returns (ok: bool, ret: int)
      requires Valid(fs) && n <= INT_MAX && n <= |src|
      modifies this, fs
      ensures !writable || n <= 0 || old(fs.EWriteRefused(ep, off, n)) ==>
        ok && fs.St() == old(fs.St()) && off == old(off) && ret == if writable && n == 0 then 0 else -1
      ensures writable && n > 0 && !old(fs.EWriteRefused(ep, off, n)) ==>
        (ok <==> |old(fs.chain)[ep]| + FreeCount(old(fs.v).fat) > Quo(old(off) + n - 1, fs.g.bytsPerClus))
      ensures writable && n > 0 && !old(fs.EWriteRefused(ep, off, n)) && ok ==>
        && Valid(fs) && ret == n && off == old(off) + n && |fs.ent| == |old(fs.ent)|
        && fs.File(ep) == Splice(old(fs.File(ep)), old(off), src[..n])
        && forall x :: 0 <= x < |fs.ent| && x != ep ==>
             fs.ent[x] == old(fs.ent)[x] && fs.chain[x] == old(fs.chain)[x] && fs.File(x) == old(fs.File(x))
               && fs.Raw(x) == old(fs.Raw(x))
    {
      SizeOk(fs, ep);
      hide Content, Quo, Rem, Cap, FsInv, IsReadOnly, Rep;
      ok := true;
      if !writable {
        return true, -1;
      }
      var i := 0;
      while i < n
        invariant (i == 0 || i == n) && ok && fs.g.bytsPerClus > 0
        invariant i == 0 ==> fs.St() == old(fs.St()) && off == old(off)
        invariant i == n > 0 ==> !old(fs.EWriteRefused(ep, off, n))
        invariant i == n > 0 ==>
          |old(fs.chain)[ep]| + FreeCount(old(fs.v).fat) > Quo(old(off) + n - 1, fs.g.bytsPerClus)
        invariant i == n > 0 ==> Valid(fs) && off == old(off) + n && |fs.ent| == |old(fs.ent)|
        invariant i == n > 0 ==> fs.File(ep) == Splice(old(fs.File(ep)), old(off), src[..n])
        invariant i == n > 0 ==> forall x :: 0 <= x < |fs.ent| && x != ep ==>
          fs.ent[x] == old(fs.ent)[x] && fs.chain[x] == old(fs.chain)[x] && fs.File(x) == old(fs.File(x))
            && fs.Raw(x) == old(fs.Raw(x))
        decreases n - i
      {
        var n1 := n - i;
        var r;
        ok, r := fs.EWrite(ep, src[i..n], off);
        if !ok {
          return false, -1;
        }
        if r > 0 {
          off := off + r;
        }
        if r < 0 {
          break;
        }
        assert src[i..n] == src[..n];
        i := i + r;
      }
      ret := if i == n then n else -1;
    }

    /**
     `filewrite_at`: the range is cut to the file, and inside it the bytes change; the size, the
     chain and the offset of the open file do not, and no cluster is needed.
     */
    method FileWriteAt(fs: FileSystem, src: seq<byte>, offset: nat, n: int) returns (ret: int)
      requires Valid(fs) && n <= INT_MAX && n <= |src|
      modifies fs
      ensures Valid(fs) && off == old(off) && |fs.ent| == |old(fs.ent)|
      ensures !writable || n < 0 || offset >= U32 ==> ret == -1 && fs.St() == old(fs.St())
      ensures writable && n >= 0 && |old(fs.File(ep))| <= offset < U32 ==> ret == 0 && fs.St() == old(fs.St())
      ensures writable && n >= 0 && offset < |old(fs.File(ep))| && IsReadOnly(old(fs.ent)[ep].attribute) ==>
        ret == -1 && fs.St() == old(fs.St())
      ensures writable && n >= 0 && offset < |old(fs.File(ep))| && !IsReadOnly(old(fs.ent)[ep].attribute) ==>
        && ret == (if offset + n > |old(fs.File(ep))| then |old(fs.File(ep))| - offset else n)
        && 0 <= ret <= n && fs.File(ep) == Splice(old(fs.File(ep)), offset, src[..ret])
           && |fs.File(ep)| == |old(fs.File(ep))|
        && fs.ent[ep].fileSize == old(fs.ent)[ep].fileSize && fs.chain == old(fs.chain)
        && forall x :: 0 <= x < |fs.ent| && x != ep ==>
             fs.ent[x] == old(fs.ent)[x] && fs.File(x) == old(fs.File(x)) && fs.Raw(x) == old(fs.Raw(x))
    {
      SizeOk(fs, ep);
      hide Content, Quo, Rem, Cap, FsInv, IsReadOnly, Rep;
      if !writable || n < 0 || offset > 0xffff_ffff {
        return -1;
      }
      if offset >= fs.ent[ep].fileSize {
        return 0;
      }
      var m := if offset + n > fs.ent[ep].fileSize then fs.ent[ep].fileSize - offset else n;
      InsideChain(fs, ep, offset, m);
      var ok, r := fs.EWrite(ep, src[..m], offset);
      assert ok;
      ret := if r == m then r else -1;
      if ret == m {
        assert fs.chain[ep] == old(fs.chain)[ep];
        assert fs.chain == old(fs.chain);
      }
    }
  }

  lemma SizeOk(fs: FileSystem, e: nat)
    requires fs.Valid() && e < |fs.ent|
    ensures fs.g.bytsPerClus > 0 && |fs.File(e)| == fs.ent[e].fileSize < U32
  {
    hide Quo, FsInv;
    EntryReadable(fs.g.bytsPerClus, fs.v, fs.ent, fs.chain, fs.owner, e);
  }

  lemma SameSelf(ent: seq<Dirent>, e: nat)
    requires e < |ent|
    ensures SameButCursor(ent, ent, e)
  {
  }

  lemma SameLen(ent: seq<Dirent>, ent': seq<Dirent>, e: nat)
    requires SameButCursor(ent, ent', e)
    ensures |ent'| == |ent| && ent'[e].fileSize == ent[e].fileSize
  {
  }

  /** A range inside the file lies in clusters that the chain already has. */
  lemma InsideChain(fs: FileSystem, e: nat, off: nat, m: nat)
    requires fs.Valid() && e < |fs.ent| && off < fs.ent[e].fileSize && off + m <= fs.ent[e].fileSize
    ensures |fs.chain[e]| > 0 && (m > 0 ==> Quo(off + m - 1, fs.g.bytsPerClus) < |fs.chain[e]|)
    ensures fs.ent[e].fileSize < U32
  {
    hide Content, FsInv, Quo;
    EntryReadable(fs.g.bytsPerClus, fs.v, fs.ent, fs.chain, fs.owner, e);
    if m > 0 {
      QuoBound(off + m - 1, |fs.chain[e]|, fs.g.bytsPerClus);
    }
  }
}
