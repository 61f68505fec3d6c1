/**
 Directories on the volume: reading and writing 32-byte slots through the cursor and the cluster
 chain (kernel/fs/fat32.c:438-650, 784-878).  Each method is tied to the slot-level functions of
 DirCodec and DirModel, so an entry that straddles two clusters is no special case.
 */
module Directory {
  import opened Bytes
  import opened DivMod
  import opened Fat32Layout
  import opened Fat32Chain
  import opened Fat32
  import opened DirCodec
  import DirModel
  import opened DirBytes

  /** The 32-byte slots of a byte sequence. */
  ghost function SlotsOf(raw: seq<byte>): (r: seq<Slot>)
    ensures |r| == |raw| / 32
    ensures forall i :: 0 <= i < |r| ==> r[i] == raw[32 * i..32 * i + 32]
  {
    seq(|raw| / 32, i requires 0 <= i < |raw| / 32 => raw[32 * i..32 * i + 32])
  }

  /** All slots of directory `e`. */
  ghost function Slots(fs: FileSystem, e: nat): seq<Slot>
    requires fs.Valid() && e < |fs.ent|
    reads fs
  {
    SlotsOf(fs.Raw(e))
  }

  lemma {:induction false} RemAligned(off: nat, b: nat)
    requires b > 0 && off % 32 == 0 && b % 32 == 0
    ensures Rem(off, b) % 32 == 0
  {
    if off >= b {
      RemAligned(off - b, b);
    }
  }

  lemma {:induction false} CapAligned(n: nat, b: nat)
    requires b % 32 == 0
    ensures Cap(n, b) % 32 == 0
  {
    if n > 0 {
      CapAligned(n - 1, b);
    }
  }

  /** A slot lies inside one cluster. */
  lemma SlotFits(off: nat, b: nat)
    requires b > 0 && off % 32 == 0 && b % 32 == 0
    ensures Rem(off, b) + 32 <= b
  {
    RemAligned(off, b);
  }

  lemma AlignedRoom(off: nat, n: nat)
    requires off % 32 == 0 && n % 32 == 0
    ensures off < n <==> off / 32 < n / 32
    ensures off < n ==> off + 32 <= n
    ensures 32 * (off / 32) == off
  {
  }

  /** A byte behind the old clusters is zero. */
  lemma AddedByte(bpc: nat, v: Vol, v': Vol, ch: seq<nat>, ch': seq<nat>, k: nat)
    requires Readable(bpc, v, ch) && Readable(bpc, v', ch') && Extends(bpc, v, ch, v', ch')
    requires Cap(|ch|, bpc) <= k < Cap(|ch'|, bpc)
    ensures Content(bpc, v', ch', Cap(|ch'|, bpc))[k] == 0
  {
    hide Content, Quo, Rem, Cap;
    ContentAt(bpc, v', ch', Cap(|ch'|, bpc), k);
    QuoBound(k, |ch|, bpc);
    QuoBound(k, |ch'|, bpc);
    assert IsFree(v.fat, ch'[Quo(k, bpc)]);
  }

  /** Reading clusters that were just added gives zeros after the old bytes. */
  lemma ExtendRaw(bpc: nat, v: Vol, v': Vol, ch: seq<nat>, ch': seq<nat>)
    requires Readable(bpc, v, ch) && Readable(bpc, v', ch') && Extends(bpc, v, ch, v', ch')
    requires forall i :: 0 <= i < |ch| ==> v'.clus[ch[i]] == v.clus[ch[i]]
    ensures Cap(|ch|, bpc) <= Cap(|ch'|, bpc)
    ensures Content(bpc, v', ch', Cap(|ch'|, bpc))
         == Content(bpc, v, ch, Cap(|ch|, bpc)) + Zeros(Cap(|ch'|, bpc) - Cap(|ch|, bpc))
  {
    var n, n' := Cap(|ch|, bpc), Cap(|ch'|, bpc);
    CapMono(|ch|, |ch'|, bpc);
    ContentFrame(bpc, v, v', ch, ch', n);
    hide Content, Cap, Quo, Rem, Extends;
    var a, b := Content(bpc, v', ch', n'), Content(bpc, v', ch', n);
    forall k: nat | k < n'
      ensures a[k] == if k < n then b[k] else 0
    {
      if k < n {
        ContentAt(bpc, v', ch', n', k);
        ContentAt(bpc, v', ch', n, k);
      } else {
        AddedByte(bpc, v, v', ch, ch', k);
      }
    }
  }

  /** Overwriting 32 aligned bytes replaces one slot. */
  lemma SlotsWrite(raw: seq<byte>, k: nat, d: Slot)
    requires 32 * k + 32 <= |raw|
    ensures SlotsOf(Overwrite(raw, 32 * k, d)) == SlotsOf(raw)[k := d]
  {
    var raw' := Overwrite(raw, 32 * k, d);
    var a, b := SlotsOf(raw'), SlotsOf(raw)[k := d];
    forall i | 0 <= i < |a|
      ensures a[i] == b[i]
    {
      assert raw'[32 * i..32 * i + 32] == if i == k then d else raw[32 * i..32 * i + 32];
    }
  }

  /** Zero bytes at the end are blank slots. */
  lemma SlotsPad(raw: seq<byte>, m: nat)
    requires |raw| % 32 == 0 && m % 32 == 0
    ensures SlotsOf(raw + Zeros(m)) == SlotsOf(raw) + DirModel.Blank(m / 32)
  {
    var raw' := raw + Zeros(m);
    var a, b := SlotsOf(raw'), SlotsOf(raw) + DirModel.Blank(m / 32);
    forall i | 0 <= i < |a|
      ensures a[i] == b[i]
    {
      if i < |raw| / 32 {
        assert raw'[32 * i..32 * i + 32] == raw[32 * i..32 * i + 32];
      } else {
        assert raw'[32 * i..32 * i + 32] == Zeros(32);
      }
    }
  }

  /** Read the slot at byte offset `off`; `end` when the chain has no such slot. */
  method ReadSlot(fs: FileSystem, dp: nat, off: nat) returns (end: bool, s: Slot)
    requires fs.Valid() && dp < |fs.ent| && fs.chain[dp] != [] && off % 32 == 0
    modifies fs
    ensures fs.Valid() && fs.v == old(fs.v) && fs.blocks == old(fs.blocks) && fs.chain == old(fs.chain)
      && fs.owner == old(fs.owner)
    ensures SameButCursor(old(fs.ent), fs.ent, dp) && Slots(fs, dp) == old(Slots(fs, dp))
    ensures end <==> off / 32 >= |Slots(fs, dp)|
    ensures !end ==> s == Slots(fs, dp)[off / 32]
  {
    hide Content, Quo, Rem, Cap, Extends, FsInv;
    ghost var bpc := fs.g.bytsPerClus;
    EntryReadable(bpc, fs.v, fs.ent, fs.chain, fs.owner, dp);
    CapAligned(|fs.chain[dp]|, bpc);
    QuoBound(off, |fs.chain[dp]|, bpc);
    SlotFits(off, bpc);
    ghost var raw := fs.Raw(dp);
    AlignedRoom(off, |raw|);
    var _, r := fs.RelocClus(dp, off, false);
    assert fs.chain[dp] == old(fs.chain)[dp];
    assert fs.Raw(dp) == raw;
    if r == -1 {
      return true, Zeros(32);
    }
    EntryReadable(bpc, fs.v, fs.ent, fs.chain, fs.owner, dp);
    var data := fs.ReadClus(fs.ent[dp].curClus, r, 32);
    ContentSlice(bpc, fs.v, fs.chain[dp], |raw|, off, 32);
    return false, data;
  }

  /** The slots of `dp` are written, the chain of `dp` may have grown, and nothing else changed. */
  twostate predicate DirChanged(fs: FileSystem, dp: nat)
    requires dp < |old(fs.ent)|
    reads fs
  {
    && fs.Valid() && old(fs.Valid())
    && Wrote(old(fs.v), old(fs.ent), old(fs.chain), fs.v, fs.ent, fs.chain, dp)
  }

  /** Move the cursor of `dp` to byte offset `off`, extending the chain with zeroed clusters if needed. */
  method SeekSlot(fs: FileSystem, dp: nat, off: nat) returns (ok: bool, r: int)
    requires fs.Valid() && dp < |fs.ent| && fs.chain[dp] != []
    modifies fs
    ensures ok <==> |old(fs.chain)[dp]| + FreeCount(old(fs.v).fat) > Quo(off, fs.g.bytsPerClus)
    ensures ok ==> DirChanged(fs, dp) && |old(fs.Raw(dp))| <= |fs.Raw(dp)|
    ensures ok ==> |fs.chain[dp]| <= Max(|old(fs.chain)[dp]|, Quo(off, fs.g.bytsPerClus) + 1)
    ensures ok ==> r == Rem(off, fs.g.bytsPerClus) && Quo(off, fs.g.bytsPerClus) < |fs.chain[dp]|
    ensures ok ==> fs.ent[dp].curClus == fs.chain[dp][Quo(off, fs.g.bytsPerClus)]
    ensures ok ==> fs.Raw(dp) == old(fs.Raw(dp)) + Zeros(|fs.Raw(dp)| - |old(fs.Raw(dp))|)
  {
    hide Content, Quo, Rem, Cap, FsInv, Extends;
    ghost var bpc := fs.g.bytsPerClus;
    EntryReadable(bpc, fs.v, fs.ent, fs.chain, fs.owner, dp);
    ok, r := fs.RelocClus(dp, off, true);
    if ok {
      ExtendsKeeps(bpc, old(fs.v), old(fs.ent), old(fs.chain), old(fs.owner), fs.v, fs.chain[dp], dp);
      EntryReadable(bpc, fs.v, fs.ent, fs.chain, fs.owner, dp);
      ExtendRaw(bpc, old(fs.v), fs.v, old(fs.chain)[dp], fs.chain[dp]);
    }
  }

  /** Store `d` at byte offset `off`, where the cursor already is; `d` must not cross a cluster boundary. */
  method StoreBytes(fs: FileSystem, dp: nat, off: nat, r: int, d: seq<byte>)
    requires fs.Valid() && dp < |fs.ent| && 0 < |d| && Rem(off, fs.g.bytsPerClus) + |d| <= fs.g.bytsPerClus
    requires r == Rem(off, fs.g.bytsPerClus) && Quo(off, fs.g.bytsPerClus) < |fs.chain[dp]|
    requires fs.ent[dp].curClus == fs.chain[dp][Quo(off, fs.g.bytsPerClus)]
    modifies fs
    ensures DirChanged(fs, dp) && fs.ent == old(fs.ent) && fs.chain == old(fs.chain) && fs.v.fat == old(fs.v).fat
    ensures off + |d| <= |old(fs.Raw(dp))| && Spliced(fs.Raw(dp), old(fs.Raw(dp)), off, d)
  {
    hide Content, Quo, Rem, Cap, FsInv, Spliced;
    ghost var bpc, k, ch := fs.g.bytsPerClus, Quo(off, fs.g.bytsPerClus), fs.chain[dp];
    EntryReadable(bpc, fs.v, fs.ent, fs.chain, fs.owner, dp);
    fs.WriteClus(fs.ent[dp].curClus, d, r);
    ContentsFree(bpc, old(fs.v), fs.ent, fs.chain, fs.owner, fs.v);
    EntryReadable(bpc, fs.v, fs.ent, fs.chain, fs.owner, dp);
    QuoBound(off, |ch|, bpc);
    ContentWrite(bpc, old(fs.v), fs.v, ch, off, d, Cap(|ch|, bpc));
    WriteKeeps(bpc, old(fs.v), fs.ent, fs.chain, fs.owner, fs.v, dp, k, fs.v.clus[ch[k]]);
  }

  /** Write slot `s` at byte offset `off`, extending the chain with zeroed clusters if needed. */
  method WriteSlot(fs: FileSystem, dp: nat, off: nat, s: Slot) returns (ok: bool, ghost pad: nat)
    requires fs.Valid() && dp < |fs.ent| && fs.chain[dp] != [] && off % 32 == 0
    modifies fs
    ensures ok <==> |old(fs.chain)[dp]| + FreeCount(old(fs.v).fat) > Quo(off, fs.g.bytsPerClus)
    ensures ok ==> DirChanged(fs, dp)
    ensures ok ==> |fs.chain[dp]| <= Max(|old(fs.chain)[dp]|, Quo(off, fs.g.bytsPerClus) + 1)
    ensures ok ==> off / 32 < |old(Slots(fs, dp))| + pad
    ensures ok ==> Slots(fs, dp) == (old(Slots(fs, dp)) + DirModel.Blank(pad))[off / 32 := s]
  {
    hide Content, Quo, Rem, Cap, FsInv, Spliced;
    pad := 0;
    BpcAligned(fs.g);
    SlotFits(off, fs.g.bytsPerClus);
    var r;
    ok, r := SeekSlot(fs, dp, off);
    if ok {
      ghost var v1, ent1, chain1 := fs.v, fs.ent, fs.chain;
      StoreBytes(fs, dp, off, r, s);
      WroteTrans(old(fs.v), old(fs.ent), old(fs.chain), v1, ent1, chain1, fs.v, fs.ent, fs.chain, dp);
      pad := RawToSlots(fs.g.bytsPerClus, |old(fs.chain)[dp]|, |fs.chain[dp]|, old(fs.Raw(dp)), fs.Raw(dp), off, s);
    }
  }

  lemma BpcAligned(g: Geometry)
    requires g.Valid()
    ensures g.bytsPerClus > 0 && g.bytsPerClus % 32 == 0
  {
    assert g.bytsPerClus == 32 * (16 * g.secPerClus);
  }

  lemma RawToSlots(bpc: nat, n: nat, n': nat, raw: seq<byte>, raw': seq<byte>, off: nat, s: Slot) returns (pad: nat)
    requires bpc % 32 == 0 && off % 32 == 0 && n <= n' && |raw| == Cap(n, bpc) <= Cap(n', bpc) && off < Cap(n', bpc)
    requires Spliced(raw', raw + Zeros(Cap(n', bpc) - Cap(n, bpc)), off, s) && |raw'| == Cap(n', bpc)
    ensures off / 32 < |SlotsOf(raw)| + pad
    ensures SlotsOf(raw') == (SlotsOf(raw) + DirModel.Blank(pad))[off / 32 := s]
  {
    CapAligned(n, bpc);
    CapAligned(n', bpc);
    var m := Cap(n', bpc) - Cap(n, bpc);
    AlignedRoom(off, |raw| + m);
    pad := m / 32;
    assert raw' == Overwrite(raw + Zeros(m), 32 * (off / 32), s);
    SlotsWrite(raw + Zeros(m), off / 32, s);
    SlotsPad(raw, m);
  }

  // ---------- Building one entry ----------

  method CalChecksum(short: seq<byte>) returns (sum: byte)
    ensures sum == Checksum(short)
  {
    sum := 0;
    var i := 0;
    while i < |short|
      invariant 0 <= i <= |short| && Checksum(short[i..], sum) == Checksum(short)
    {
      assert short[i..][1..] == short[i + 1..];
      sum := (((if sum % 2 == 1 then 0x80 else 0) + sum as int / 2 + short[i] as int) % 256) as byte;
      i := i + 1;
    }
    assert short[i..] == [];
  }

  predicate Printable(s: seq<byte>) {
    forall i :: 0 <= i < |s| ==> 0x20 <= s[i] <= 0x7e
  }

  // ---------- Short names ----------

  /** A character of a long name in a short one. */
  function ShortChar(c: byte): byte {
    if 0x61 <= c <= 0x7a then c - 0x20 else if c in {0x2b, 0x2c, 0x3b, 0x3d, 0x5b, 0x5d} then 0x5f else c
  }

  /** The characters of `s` that go into a short name: no blanks, no dots. */
  function Kept(s: seq<byte>): seq<byte> {
    if s == [] then []
    else Kept(s[..|s| - 1]) + if s[|s| - 1] in {0x20, 0x2e} then [] else [ShortChar(s[|s| - 1])]
  }

  /** Where the last dot is, or the length of the name when there is none. */
  function LastDot(name: seq<byte>): (d: nat)
    ensures d <= |name|
    ensures d < |name| ==> name[d] == 0x2e && forall k :: d < k < |name| ==> name[k] != 0x2e
    ensures d == |name| ==> forall k :: 0 <= k < |name| ==> name[k] != 0x2e
  {
    if name == [] then 0
    else if name[|name| - 1] == 0x2e then |name| - 1
    else var d := LastDot(name[..|name| - 1]); if d < |name| - 1 then d else |name|
  }

  /** `s` cut or filled with blanks to `n` characters. */
  function Fitted(s: seq<byte>, n: nat): seq<byte> {
    if |s| >= n then s[..n] else s + seq(n - |s|, _ => 0x20)
  }

  /** The 8.3 name: eight characters of what is before the last dot, three of what is behind it. */
  function ShortOf(name: seq<byte>): seq<byte> {
    var d := LastDot(name);
    Fitted(Kept(name[..d]), 8) + Fitted(if d < |name| then Kept(name[d + 1..]) else [], 3)
  }

  lemma {:induction false} KeptPrefix(s: seq<byte>, n: nat)
    requires n <= |s|
    ensures Kept(s[..n]) <= Kept(s) && |Kept(s)| <= |s|
  {
    if n < |s| {
      KeptPrefix(s[..|s| - 1], n);
      assert s[..|s| - 1][..n] == s[..n];
    } else {
      assert s[..n] == s;
      if s != [] {
        KeptPrefix(s[..|s| - 1], 0);
      }
    }
  }

  /** What the loop does with the character at `n`. */
  lemma KeptNext(name: seq<byte>, a: nat, n: nat)
    requires a <= n < |name|
    ensures Kept(name[a..n + 1]) == Kept(name[a..n]) + if name[n] in {0x20, 0x2e} then [] else [ShortChar(name[n])]
  {
    assert name[a..n + 1][..n - a] == name[a..n];
  }

  lemma {:induction false} KeptPrintable(s: seq<byte>)
    requires Printable(s)
    ensures Printable(Kept(s))
  {
    if s != [] {
      KeptPrintable(s[..|s| - 1]);
    }
  }

  /** A character that a short name has as it is: a capital letter or a digit. */
  predicate PlainChar(c: byte) { 65 <= c <= 90 || 48 <= c <= 57 }

  lemma {:induction false} KeptPlain(s: seq<byte>)
    requires forall i :: 0 <= i < |s| ==> PlainChar(s[i])
    ensures Kept(s) == s
  {
    if s != [] {
      KeptPlain(s[..|s| - 1]);
      assert PlainChar(s[|s| - 1]) && s == s[..|s| - 1] + [s[|s| - 1]];
    }
  }

  /** A name that is a short one already stays what it is, its parts filled with blanks to eight and three. */
  lemma ShortStays(stem: seq<byte>, ext: seq<byte>)
    requires |stem| <= 8 && |ext| <= 3
    requires (forall i :: 0 <= i < |stem| ==> PlainChar(stem[i])) && (forall i :: 0 <= i < |ext| ==> PlainChar(ext[i]))
    ensures ShortOf(stem + [46] + ext) == stem + seq(8 - |stem|, _ => 32) + (ext + seq(3 - |ext|, _ => 32))
    ensures ShortOf(stem) == stem + seq(8 - |stem|, _ => 32) + seq(3, _ => 32)
  {
    KeptPlain(stem);
    KeptPlain(ext);
    SplitDot(stem, ext);
    FittedFill(stem, 8);
    FittedFill(ext, 3);
    FittedFill([], 3);
    hide Kept, LastDot, Fitted;
    assert [] + seq(3, _ => 32) == seq(3, _ => 32);
  }

  lemma SplitDot(stem: seq<byte>, ext: seq<byte>)
    requires (forall i :: 0 <= i < |stem| ==> PlainChar(stem[i])) && (forall i :: 0 <= i < |ext| ==> PlainChar(ext[i]))
    ensures var name := stem + [46] + ext;
      LastDot(name) == |stem| < |name| && name[..|stem|] == stem && name[|stem| + 1..] == ext
    ensures LastDot(stem) == |stem| && stem[..|stem|] == stem
  {
    hide LastDot;
    var name := stem + [46] + ext;
    assert name[|stem|] == 46 && forall k :: |stem| < k < |name| ==> name[k] == ext[k - |stem| - 1];
  }

  lemma FittedFill(s: seq<byte>, n: nat)
    requires |s| <= n
    ensures Fitted(s, n) == s + seq(n - |s|, _ => 32)
  {
  }

  /** Small letters become capitals, the characters + , ; = [ ] become _, blanks and dots go. */
  lemma ShortChars(s: seq<byte>, c: byte)
    ensures Kept(s + [c]) == Kept(s) +
      if c == 32 || c == 46 then [] else if 97 <= c <= 122 then [c - 32]
      else if c in {43, 44, 59, 61, 91, 93} then [95] else [c]
  {
    assert (s + [c])[..|s|] == s;
  }

  lemma ShortPrintable(name: seq<byte>)
    ensures |ShortOf(name)| == CHAR_SHORT_NAME
    ensures Printable(name) ==> ShortOk(ShortOf(name))
  {
    if Printable(name) {
      var d := LastDot(name);
      KeptPrintable(name[..d]);
      if d < |name| {
        KeptPrintable(name[d + 1..]);
      }
      assert Printable(ShortOf(name));
      assert 0x20 <= ShortOf(name)[0] <= 0x7e;
    }
  }

  /** After `n` characters of the name; `p` is the last dot, 0 when there is none, -1 once it has been used. */
  ghost predicate Shortened(name: seq<byte>, n: nat, p: int, short: seq<byte>) {
    var d := LastDot(name);
    && n <= |name|
    && if p == -1 then
         d < n && |short| <= CHAR_SHORT_NAME && short == Fitted(Kept(name[..d]), 8) + Kept(name[d + 1..n])
       else
         p == (if d < |name| then d else 0) && n <= d && short == Kept(name[..n]) && |short| <= 8
  }

  function Blanks(n: nat): seq<byte> { seq(n, _ => 0x20) }

  lemma ShortSkip(name: seq<byte>, n: nat, p: int, short: seq<byte>)
    requires Shortened(name, n, p, short) && n < |name| && !(|short| == 8 && p != -1)
    requires name[n] == 0x20 || (name[n] == 0x2e && n < p)
    ensures Shortened(name, n + 1, p, short)
  {
    KeptNext(name, if p == -1 then LastDot(name) + 1 else 0, n);
    assert name[0..n] == name[..n] && name[0..n + 1] == name[..n + 1];
  }

  lemma ShortDot(name: seq<byte>, n: nat, p: int, short: seq<byte>)
    requires Shortened(name, n, p, short) && n < |name| && name[n] == 0x2e && n >= p
    ensures |short| <= 8 && Shortened(name, n + 1, -1, short + Blanks(8 - |short|))
  {
    assert name[n + 1..n + 1] == [];
  }

  lemma ShortNext(name: seq<byte>, n: nat, p: int, short: seq<byte>)
    requires Shortened(name, n, p, short) && n < |name| && |short| < CHAR_SHORT_NAME && !(|short| == 8 && p != -1)
    requires name[n] !in {0x20, 0x2e}
    ensures Shortened(name, n + 1, p, short + [ShortChar(name[n])])
  {
    KeptNext(name, if p == -1 then LastDot(name) + 1 else 0, n);
    assert name[0..n] == name[..n] && name[0..n + 1] == name[..n + 1];
  }

  /** Eight characters before the dot are enough. */
  lemma ShortFull(name: seq<byte>, n: nat, p: int, short: seq<byte>)
    requires Shortened(name, n, p, short) && n < |name| && |short| == 8 && p != -1
    ensures p + 1 < n + 1 ==> short + Blanks(3) == ShortOf(name)
    ensures p + 1 >= n + 1 ==> Shortened(name, p + 1, -1, short)
  {
    var d := LastDot(name);
    KeptPrefix(name[..n], 0);
    KeptPrefix(name[..d], n);
    assert name[..d][..n] == name[..n];
    assert Fitted(Kept(name[..d]), 8) == short;
    assert d < |name| ==> name[d + 1..d + 1] == [];
  }

  /** Filling up at the end fills the last part. */
  lemma FitTail(a: seq<byte>, b: seq<byte>)
    ensures |a| == 8 && |b| <= 3 ==> a + b + Blanks(3 - |b|) == a + Fitted(b, 3)
    ensures |a| <= 8 && b == [] ==> a + Blanks(CHAR_SHORT_NAME - |a|) == Fitted(a, 8) + Fitted(b, 3)
  {
  }

  lemma ShortDone(name: seq<byte>, n: nat, p: int, short: seq<byte>)
    requires Shortened(name, n, p, short) && (|short| == CHAR_SHORT_NAME || n == |name|)
    ensures |short| <= CHAR_SHORT_NAME && short + Blanks(CHAR_SHORT_NAME - |short|) == ShortOf(name)
  {
    hide Blanks, Kept;
    var d := LastDot(name);
    if p == -1 {
      KeptPrefix(name[d + 1..], n - d - 1);
      assert name[d + 1..][..n - d - 1] == name[d + 1..n];
      assert n == |name| ==> name[d + 1..n] == name[d + 1..];
      FitTail(Fitted(Kept(name[..d]), 8), Kept(name[d + 1..n]));
    } else {
      assert name[..n] == name[..d];
      FitTail(short, []);
    }
  }

  /** `generate_shortname`. */
  method GenerateShortname(name: seq<byte>) returns (short: seq<byte>)
    ensures short == ShortOf(name)
  {
    hide Shortened, ShortOf;
    var p := 0;
    var j := |name| - 1;
    while j >= 0
      invariant -1 <= j < |name| && p == 0
      invariant forall k :: j < k < |name| ==> name[k] != 0x2e
    {
      if name[j] == 0x2e {
        p := j;
        break;
      }
      j := j - 1;
    }
    short := [];
    var n := 0;
    ShortStart(name, p);
    ghost var full := false;
    while |short| < CHAR_SHORT_NAME && n < |name|
      invariant -1 <= p < |name| + 1 && 0 <= n <= |name| && !full && |short| <= CHAR_SHORT_NAME
      invariant Shortened(name, n, p, short)
      decreases |name| - n
    {
      ShortRange(name, n, p, short);
      var c := name[n];
      n := n + 1;
      if |short| == 8 && p != -1 {
        ShortFull(name, n - 1, p, short);
        if p + 1 < n {
          full := true;
          break;
        }
        n, p := p + 1, -1;
        continue;
      }
      if c == 0x20 {
        ShortSkip(name, n - 1, p, short);
        continue;
      }
      if c == 0x2e {
        if n > p {
          ShortDot(name, n - 1, p, short);
          short, p := short + Blanks(8 - |short|), -1;
        } else {
          ShortSkip(name, n - 1, p, short);
        }
        continue;
      }
      ShortNext(name, n - 1, p, short);
      if 0x61 <= c <= 0x7a {
        c := c - 0x20;
      } else if c in {0x2b, 0x2c, 0x3b, 0x3d, 0x5b, 0x5d} {
        c := 0x5f;
      }
      short := short + [c];
    }
    if !full {
      ShortDone(name, n, p, short);
    }
    short := short + Blanks(CHAR_SHORT_NAME - |short|);
  }

  lemma ShortStart(name: seq<byte>, p: nat)
    requires if p < |name| && name[p] == 0x2e then forall k :: p < k < |name| ==> name[k] != 0x2e
             else p == 0 && forall k :: 0 <= k < |name| ==> name[k] != 0x2e
    ensures Shortened(name, 0, p, [])
  {
  }

  lemma ShortRange(name: seq<byte>, n: nat, p: int, short: seq<byte>)
    requires Shortened(name, n, p, short) && n < |name|
    ensures p < |name| && |short| <= CHAR_SHORT_NAME && (p != -1 ==> |short| <= 8)
  {
  }

  /** Fill one long-name entry, thirteen wide characters in three groups. */
  method FillLongEntry(de: Slot, name: seq<byte>, i: nat, entcnt: nat) returns (r: Slot)
    requires NameOk(name) && 1 <= i <= entcnt == EntCnt(|name|) <= 19
    requires de[11] == ATTR_LONG_NAME && de[12] == 0 && de[26] == 0 && de[27] == 0
    ensures r == LongSlot(name, i, de[13])
  {
    hide LongSlot;
    r := de[0 := (i + if i == entcnt then LAST_LONG_ENTRY else 0) as byte];
    var base := (i - 1) * CHAR_LONG_NAME;
    var w, end, j := 1, false, 0;
    while j < CHAR_LONG_NAME
      invariant 0 <= j <= CHAR_LONG_NAME && (j < CHAR_LONG_NAME ==> w == WideAt(j))
      invariant end <==> base + j > |name|
      invariant r[0] == OrderByte(name, i) && r[11] == ATTR_LONG_NAME && r[12] == 0 && r[13] == de[13] && r[26] == 0
        && r[27] == 0
      invariant forall t {:trigger WideAt(t)} :: 0 <= t < j ==>
        r[WideAt(t)] == Wide(name, base + t)[0] && r[WideAt(t) + 1] == Wide(name, base + t)[1]
    {
      WideApart(j);
      if end {
        r := r[w := 0xff][w + 1 := 0xff];
      } else {
        var c := if base + j < |name| then name[base + j] else 0;
        r := r[w := c][w + 1 := 0];
        end := c == 0 || end;
      }
      w := w + 2;
      j := j + 1;
      if j == 5 {
        w := 14;
      } else if j == 11 {
        w := 28;
      }
    }
    LongSlotBytes(r, name, i, de[13]);
  }

  /** Different wide characters occupy different bytes, away from the other fields. */
  lemma WideApart(j: nat)
    requires j < CHAR_LONG_NAME
    ensures forall t {:trigger WideAt(t)} :: 0 <= t < j ==> WideAt(t) + 1 < WideAt(j)
    ensures 0 < WideAt(j) < 31 && WideAt(j) !in {10, 11, 12, 13, 25, 26, 27}
  {
  }

  lemma LongSlotBytes(r: Slot, name: seq<byte>, i: nat, checksum: byte)
    requires 1 <= i <= 19 && Wides(r, name, (i - 1) * CHAR_LONG_NAME)
    requires r[0] == OrderByte(name, i) && r[11] == ATTR_LONG_NAME && r[12] == 0 && r[13] == checksum && r[26] == 0
      && r[27] == 0
    ensures r == LongSlot(name, i, checksum)
  {
    forall k: nat | k < 32
      ensures r[k] == LongByte(name, i, checksum, k)
    {
      if 1 <= k < 11 {
        WideByte(r, name, i, checksum, k, (k - 1) / 2);
      } else if 14 <= k < 26 {
        WideByte(r, name, i, checksum, k, 5 + (k - 14) / 2);
      } else if 28 <= k {
        WideByte(r, name, i, checksum, k, 11 + (k - 28) / 2);
      }
    }
    assert forall k :: 0 <= k < 32 ==> LongSlot(name, i, checksum)[k] == LongByte(name, i, checksum, k);
  }

  lemma WideByte(r: Slot, name: seq<byte>, i: nat, checksum: byte, k: nat, j: nat)
    requires 1 <= i <= 19 && Wides(r, name, (i - 1) * CHAR_LONG_NAME) && k < 32 && j < CHAR_LONG_NAME
    requires WideAt(j) <= k <= WideAt(j) + 1
    ensures r[k] == LongByte(name, i, checksum, k)
  {
    assert r[WideAt(j)] == Wide(name, (i - 1) * CHAR_LONG_NAME + j)[0];
    assert k == WideAt(j) || k == WideAt(j) + 1;
  }

  // ---------- emake ----------

  /** Writing the next slot of an encoding, which may have needed a new blank cluster. */
  lemma MakeStep(slots: seq<Slot>, k: nat, enc: seq<Slot>, t: nat, pad: nat, more: nat) returns (rest: nat)
    requires k <= |slots| && t < |enc|
    requires k + t < |DirModel.Make(slots, k, enc[..t]) + DirModel.Blank(pad)| + more
    ensures ((DirModel.Make(slots, k, enc[..t]) + DirModel.Blank(pad)) + DirModel.Blank(more))[k + t := enc[t]]
         == DirModel.Make(slots, k, enc[..t + 1]) + DirModel.Blank(rest)
  {
    hide DirModel.Make;
    var a := DirModel.Make(slots, k, enc[..t]);
    var b := DirModel.Make(slots, k, enc[..t + 1]);
    rest := |a| + pad + more - |b|;
    var x := ((a + DirModel.Blank(pad)) + DirModel.Blank(more))[k + t := enc[t]];
    var y := b + DirModel.Blank(rest);
    forall p | 0 <= p < |x|
      ensures x[p] == y[p]
    {
    }
  }

  /** Write one slot of an entry and move on. */
  method MakeSlot(fs: FileSystem, ghost fs0: (Vol, seq<Dirent>, seq<seq<nat>>, seq<Slot>), dp: nat, off: nat, t: nat,
                  ghost enc: seq<Slot>, s: Slot, ghost pad: nat) returns (ok: bool, ghost pad': nat)
    requires fs.Valid() && dp < |fs.ent| && off % 32 == 0 && t < |enc| && s == enc[t]
    requires Wrote(fs0.0, fs0.1, fs0.2, fs.v, fs.ent, fs.chain, dp) && fs0.2[dp] != []
    requires off / 32 <= |fs0.3| && Slots(fs, dp) == DirModel.Make(fs0.3, off / 32, enc[..t]) + DirModel.Blank(pad)
    modifies fs
    ensures ok <==> |fs0.2[dp]| + FreeCount(fs0.0.fat) > Quo(off + 32 * t, fs.g.bytsPerClus)
    ensures ok ==> fs.Valid() && |fs.ent| == |fs0.1| && Wrote(fs0.0, fs0.1, fs0.2, fs.v, fs.ent, fs.chain, dp)
    ensures ok ==> Slots(fs, dp) == DirModel.Make(fs0.3, off / 32, enc[..t + 1]) + DirModel.Blank(pad')
  {
    hide FsInv, Rep, Quo, DirModel.Make, SlotsOf;
    pad' := pad;
    assert (off + 32 * t) / 32 == off / 32 + t;
    ghost var more;
    ok, more := WriteSlot(fs, dp, off + 32 * t, s);
    if ok {
      WroteTrans(fs0.0, fs0.1, fs0.2, old(fs.v), old(fs.ent), old(fs.chain), fs.v, fs.ent, fs.chain, dp);
      pad' := MakeStep(fs0.3, off / 32, enc, t, pad, more);
    }
  }

  /**
   Write the entry `name` into directory `dp` from byte offset `off` on.  The slots become the old ones
   with the encoded entry written over them, followed by blank slots of new clusters; `ok` is false
   exactly when the chain of `dp` would need more clusters than are free.
   */
  method EMake(fs: FileSystem, dp: nat, name: seq<byte>, info: Info, off: nat)
      returns (ok: bool, ghost short: seq<byte>, ghost pad: nat)
    requires fs.Valid() && dp < |fs.ent| && fs.chain[dp] != []
    requires off % 32 == 0 && 32 < off && off / 32 <= |Slots(fs, dp)|
    requires NameOk(name) && Printable(name) && info.Valid()
    modifies fs
    ensures ok <==> |old(fs.chain)[dp]| + FreeCount(old(fs.v).fat) > Quo(off + 32 * EntCnt(|name|), fs.g.bytsPerClus)
    ensures ShortOk(short) && short == ShortOf(name)
    ensures ok ==> DirChanged(fs, dp)
    ensures ok ==> Slots(fs, dp)
                   == DirModel.Make(old(Slots(fs, dp)), off / 32, Encode(name, short, info)) + DirModel.Blank(pad)
    ensures ok ==> EntryBytes(Slots(fs, dp), off / 32, name, ShortOf(name), Checksum(ShortOf(name)), info)
  {
    hide EntryBytes;
    hide FsInv, Rep, Quo, DirModel.Make, SlotsOf, LongSlot, LongSlots, Checksum, Wrote, Printable, ShortOf;
    var entcnt := (|name| + CHAR_LONG_NAME - 1) / CHAR_LONG_NAME;
    var shortname := GenerateShortname(name);
    short := shortname;
    ShortPrintable(name);
    var checksum := CalChecksum(shortname);
    var de: Slot := Zeros(32)[13 := checksum][11 := ATTR_LONG_NAME];
    ghost var enc := Encode(name, short, info);
    ghost var fs0 := (fs.v, fs.ent, fs.chain, Slots(fs, dp));
    pad := 0;
    MakeNone(fs0.3, off / 32);
    WroteSelf(fs.g.bytsPerClus, fs.v, fs.ent, fs.chain, fs.owner, dp);
    assert enc[..0] == [];
    ok := true;
    var i := entcnt;
    while i > 0
      invariant 0 <= i <= entcnt && ok
      invariant fs.Valid() && |fs.ent| == |fs0.1| && Wrote(fs0.0, fs0.1, fs0.2, fs.v, fs.ent, fs.chain, dp)
      invariant Slots(fs, dp) == DirModel.Make(fs0.3, off / 32, enc[..entcnt - i]) + DirModel.Blank(pad)
    {
      var s := FillLongEntry(de, name, i, entcnt);
      EncodeLong(name, short, info, i);
      QuoMono(off + 32 * (entcnt - i), off + 32 * entcnt, fs.g.bytsPerClus);
      ok, pad := MakeSlot(fs, fs0, dp, off, entcnt - i, enc, s, pad);
      if !ok {
        return;
      }
      i := i - 1;
    }
    var s := ShortSlot(shortname, info);
    ok, pad := MakeSlot(fs, fs0, dp, off, entcnt, enc, s, pad);
    assert enc[..entcnt + 1] == enc;
    if ok {
      MadeBytes(fs0.3, off / 32, name, short, info, pad);
    }
  }

  lemma MadeBytes(slots: seq<Slot>, k: nat, name: seq<byte>, short: seq<byte>, info: Info, pad: nat)
    requires k <= |slots| && NameOk(name) && ShortOk(short) && info.Valid()
    ensures EntryBytes(DirModel.Make(slots, k, Encode(name, short, info)) + DirModel.Blank(pad), k, name, short,
                       Checksum(short), info)
  {
    EncodeBytes(name, short, info);
    hide Encode, EntryBytes, Checksum;
    StoredBytes(DirModel.Make(slots, k, Encode(name, short, info)) + DirModel.Blank(pad), k, Encode(name, short, info),
                name, short, Checksum(short), info);
  }

  lemma EncodeLong(name: seq<byte>, short: seq<byte>, info: Info, i: nat)
    requires NameOk(name) && ShortOk(short) && info.Valid() && 1 <= i <= EntCnt(|name|)
    ensures Encode(name, short, info)[EntCnt(|name|) - i] == LongSlot(name, i, Checksum(short))
  {
    hide LongSlot, LongSlots, ShortSlot, Checksum;
    DirModel.LongSlotsAt(name, EntCnt(|name|), Checksum(short), EntCnt(|name|) - i);
  }

  lemma MakeNone(slots: seq<Slot>, k: nat)
    requires k <= |slots|
    ensures DirModel.Make(slots, k, []) + DirModel.Blank(0) == slots
  {
  }

  /** `emake` at offset 0 or 32: a "." or ".." entry, whatever name was asked for. */
  method EMakeDot(fs: FileSystem, dp: nat, firstClus: nat, off: nat) returns (ghost pad: nat)
    requires fs.Valid() && dp < |fs.ent| && fs.chain[dp] != [] && off in {0, 32} && firstClus < U32
    modifies fs
    ensures DirChanged(fs, dp) && fs.chain == old(fs.chain) && off / 32 < |old(Slots(fs, dp))| + pad
    ensures Slots(fs, dp)
         == (old(Slots(fs, dp)) + DirModel.Blank(pad))[off / 32 := DirModel.DotSlot(off / 32, firstClus)]
    ensures DotBytes(Slots(fs, dp)[off / 32], if off == 0 then 1 else 2, firstClus)
  {
    DotSlotBytes(off / 32, firstClus);
    hide DotBytes;
    FirstCluster(fs.g, fs.blocks, fs.v, off);
    hide FsInv, Rep, SlotsOf, DirModel.DotSlot, Quo, OthersKept, SameButCursor;
    var ok;
    ok, pad := WriteSlot(fs, dp, off, DirModel.DotSlot(off / 32, firstClus));
    assert fs.chain[dp] == old(fs.chain)[dp];
  }

  /** The first two slots are in the first cluster. */
  lemma FirstCluster(g: Geometry, blocks: seq<Block>, v: Vol, off: nat)
    requires Rep(g, blocks, v) && off <= 32
    ensures Quo(off, g.bytsPerClus) == 0
  {
  }

  // ---------- enext and dirlookup ----------

  /** The entry at byte offset `off` of directory `dp`. */
  method ENext(fs: FileSystem, dp: nat, off: nat) returns (next: Next)
    requires fs.Valid() && dp < |fs.ent| && fs.chain[dp] != [] && off % 32 == 0
    modifies fs
    ensures fs.Valid() && fs.v == old(fs.v) && fs.blocks == old(fs.blocks) && fs.chain == old(fs.chain)
      && fs.owner == old(fs.owner)
    ensures SameButCursor(old(fs.ent), fs.ent, dp) && Slots(fs, dp) == old(Slots(fs, dp))
    ensures next == Parse(Slots(fs, dp), off / 32)
    ensures next.Found? ==> InSlots(Slots(fs, dp), off / 32, next.info)
  {
    hide FsInv, Rep, SlotsOf, ParseSlot, InSlots;
    ghost var slots := Slots(fs, dp);
    ParseInfo(slots, off / 32);
    var st, o := INIT, off;
    while true
      invariant fs.Valid() && fs.v == old(fs.v) && fs.blocks == old(fs.blocks) && fs.chain == old(fs.chain)
        && fs.owner == old(fs.owner)
      invariant SameButCursor(old(fs.ent), fs.ent, dp) && Slots(fs, dp) == slots
      invariant o % 32 == 0 && st.Valid() && ParseFrom(slots, o / 32, st) == Parse(slots, off / 32)
      decreases |slots| - o / 32
    {
      ghost var ent1 := fs.ent;
      var end, s := ReadSlot(fs, dp, o);
      SameButCursorTrans(old(fs.ent), ent1, fs.ent, dp);
      if end {
        return End;
      }
      match ParseSlot(s, st)
      case Stop(n) => return n;
      case Go(st') => st, o := st', o + 32;
    }
  }

  /** The cold scan of `dirlookup`. */
  method DirScan(fs: FileSystem, dp: nat, name: seq<byte>) returns (r: DirModel.Found)
    requires fs.Valid() && dp < |fs.ent| && fs.chain[dp] != [] && name != []
    modifies fs
    ensures fs.Valid() && fs.v == old(fs.v) && fs.blocks == old(fs.blocks) && fs.chain == old(fs.chain)
      && fs.owner == old(fs.owner)
    ensures SameButCursor(old(fs.ent), fs.ent, dp) && Slots(fs, dp) == old(Slots(fs, dp))
    ensures r == DirModel.Scan(Slots(fs, dp), 0, name)
    ensures r.Hit? ==> InSlots(Slots(fs, dp), r.off, r.info)
  {
    hide FsInv, Rep, SlotsOf, Parse, InSlots;
    ghost var slots := Slots(fs, dp);
    ScanInfo(slots, name);
    var k := 0;
    while true
      invariant fs.Valid() && fs.v == old(fs.v) && fs.blocks == old(fs.blocks) && fs.chain == old(fs.chain)
        && fs.owner == old(fs.owner)
      invariant SameButCursor(old(fs.ent), fs.ent, dp) && Slots(fs, dp) == slots
      invariant 0 <= k && DirModel.Scan(slots, k, name) == DirModel.Scan(slots, 0, name)
      decreases |slots| - k
    {
      ghost var ent1 := fs.ent;
      var next := ENext(fs, dp, 32 * k);
      SameButCursorTrans(old(fs.ent), ent1, fs.ent, dp);
      PastEnd(slots, k);
      match next
      case End => return DirModel.Miss(k);
      case Bad => return DirModel.Broken;
      case Empty(count) =>
        if count == 0 {
          return DirModel.Broken;
        }
        k := k + count;
      case Found(count, n, info) =>
        if n == name {
          return DirModel.Hit(k, info);
        }
        if count == 0 {
          return DirModel.Broken;
        }
        k := k + count;
    }
  }

  lemma PastEnd(slots: seq<Slot>, k: nat)
    ensures k >= |slots| ==> Parse(slots, k) == End
  {
  }

  // ---------- eupdate and eremove ----------

  /** Overwrite the first bytes of the existing slot at byte offset `off`. */
  method PutBytes(fs: FileSystem, dp: nat, off: nat, d: seq<byte>)
    requires fs.Valid() && dp < |fs.ent| && fs.chain[dp] != [] && off % 32 == 0
    requires off / 32 < |Slots(fs, dp)| && 0 < |d| <= 32
    modifies fs
    ensures DirChanged(fs, dp) && fs.chain == old(fs.chain)
    ensures Slots(fs, dp) == old(Slots(fs, dp))[off / 32 := Overwrite(old(Slots(fs, dp))[off / 32], 0, d)]
  {
    hide Content, Quo, Rem, Cap, FsInv, Spliced;
    ghost var raw := fs.Raw(dp);
    BpcAligned(fs.g);
    SlotFits(off, fs.g.bytsPerClus);
    SlotReachable(fs, dp, off);
    EntryReadable(fs.g.bytsPerClus, fs.v, fs.ent, fs.chain, fs.owner, dp);
    SelfKept(fs.g.bytsPerClus, fs.v, fs.ent, fs.chain, fs.owner, dp);
    var _, r := fs.RelocClus(dp, off, false);
    assert fs.chain[dp] == old(fs.chain)[dp];
    assert fs.Raw(dp) == raw;
    ghost var ent1 := fs.ent;
    StoreBytes(fs, dp, off, r, d);
    WroteTrans(old(fs.v), old(fs.ent), old(fs.chain), old(fs.v), ent1, old(fs.chain), fs.v, fs.ent, fs.chain, dp);
    SlotsPut(raw, fs.Raw(dp), off, d);
  }

  lemma SlotsPut(raw: seq<byte>, raw': seq<byte>, off: nat, d: seq<byte>)
    requires off % 32 == 0 && off / 32 < |raw| / 32 && |d| <= 32 && Spliced(raw', raw, off, d)
    ensures SlotsOf(raw') == SlotsOf(raw)[off / 32 := Overwrite(SlotsOf(raw)[off / 32], 0, d)]
  {
    var k := off / 32;
    var s := Overwrite(SlotsOf(raw)[k], 0, d);
    forall i | 0 <= i < |raw'|
      ensures raw'[i] == Overwrite(raw, 32 * k, s)[i]
    {
      if 32 * k <= i < 32 * k + 32 {
        assert SlotsOf(raw)[k][i - 32 * k] == raw[i];
      }
    }
    assert raw' == Overwrite(raw, 32 * k, s);
    SlotsWrite(raw, k, s);
  }

  /** A slot that exists needs no new cluster. */
  lemma SlotReachable(fs: FileSystem, dp: nat, off: nat)
    requires fs.Valid() && dp < |fs.ent| && off % 32 == 0 && off / 32 < |Slots(fs, dp)|
    ensures Quo(off, fs.g.bytsPerClus) < |fs.chain[dp]|
  {
    BpcAligned(fs.g);
    CapAligned(|fs.chain[dp]|, fs.g.bytsPerClus);
    AlignedRoom(off, |fs.Raw(dp)|);
    QuoBound(off, |fs.chain[dp]|, fs.g.bytsPerClus);
  }

  /** Store a new first cluster and size in the entry that starts at byte offset `off`. */
  method EUpdate(fs: FileSystem, dp: nat, off: nat, firstClus: nat, fileSize: nat)
    requires fs.Valid() && dp < |fs.ent| && fs.chain[dp] != [] && off % 32 == 0 && firstClus < U32 && fileSize < U32
    requires off / 32 < |Slots(fs, dp)|
    requires off / 32 + LongCnt(Slots(fs, dp)[off / 32][0] as nat) < |Slots(fs, dp)|
    modifies fs
    ensures DirChanged(fs, dp)
    ensures
      var slots := old(Slots(fs, dp));
      var p := off / 32 + LongCnt(slots[off / 32][0] as nat);
      Slots(fs, dp) == slots[p := DirModel.Patch(slots[p], firstClus, fileSize)]
    ensures var slots := old(Slots(fs, dp));
      UpdatedBytes(slots, Slots(fs, dp), off / 32 + Announced(slots[off / 32][0]), firstClus, fileSize)
  {
    hide FsInv, Rep, SlotsOf, DirModel.Patch, Quo, UpdatedBytes;
    ghost var slots := Slots(fs, dp);
    var _, first := ReadSlot(fs, dp, off);
    var entcnt := LongCnt(first[0] as nat);
    var o := off + 32 * entcnt;
    assert o / 32 == off / 32 + entcnt;
    ghost var ent1 := fs.ent;
    var _, de := ReadSlot(fs, dp, o);
    SameButCursorTrans(old(fs.ent), ent1, fs.ent, dp);
    ghost var ent2 := fs.ent;
    SelfKept(fs.g.bytsPerClus, fs.v, fs.ent, fs.chain, fs.owner, dp);
    var de' := DirModel.Patch(de, firstClus, fileSize);
    PutBytes(fs, dp, o, de');
    assert Overwrite(slots[o / 32], 0, de') == de';
    WroteTrans(old(fs.v), old(fs.ent), old(fs.chain), old(fs.v), ent2, old(fs.chain), fs.v, fs.ent, fs.chain, dp);
    PatchedBytes(slots, o / 32, firstClus, fileSize);
  }

  lemma PatchedBytes(slots: seq<Slot>, p: nat, firstClus: nat, fileSize: nat)
    requires p < |slots| && firstClus < U32 && fileSize < U32
    ensures UpdatedBytes(slots, slots[p := DirModel.Patch(slots[p], firstClus, fileSize)], p, firstClus, fileSize)
  {
    PatchBytes(slots[p], firstClus, fileSize);
    hide DirModel.Patch;
  }

  /** Mark every slot of the entry that starts at byte offset `off` as empty. */
  method ERemove(fs: FileSystem, dp: nat, off: nat)
    requires fs.Valid() && dp < |fs.ent| && fs.chain[dp] != [] && off % 32 == 0
    requires off / 32 < |Slots(fs, dp)|
    requires off / 32 + LongCnt(Slots(fs, dp)[off / 32][0] as nat) < |Slots(fs, dp)|
    modifies fs
    ensures DirChanged(fs, dp)
    ensures
      var slots := old(Slots(fs, dp));
      Slots(fs, dp) == DirModel.Erase(slots, off / 32, LongCnt(slots[off / 32][0] as nat) + 1)
    ensures var slots := old(Slots(fs, dp));
      ErasedBytes(slots, Slots(fs, dp), off / 32, Announced(slots[off / 32][0]) + 1)
  {
    hide FsInv, Rep, SlotsOf, DirModel.Erase, LongCnt, ErasedBytes, Announced, Wrote;
    ErasedIs(Slots(fs, dp), off / 32);
    MarkSlots(fs, dp, off);
  }

  /** The loop of `eremove`. */
  method MarkSlots(fs: FileSystem, dp: nat, off: nat)
    requires fs.Valid() && dp < |fs.ent| && fs.chain[dp] != [] && off % 32 == 0
    requires off / 32 < |Slots(fs, dp)|
    requires off / 32 + LongCnt(Slots(fs, dp)[off / 32][0] as nat) < |Slots(fs, dp)|
    modifies fs
    ensures DirChanged(fs, dp)
    ensures
      var slots := old(Slots(fs, dp));
      Slots(fs, dp) == DirModel.Erase(slots, off / 32, LongCnt(slots[off / 32][0] as nat) + 1)
  {
    hide FsInv, Rep, SlotsOf, DirModel.Erase, Quo, LongCnt, Overwrite, Content;
    ghost var slots := Slots(fs, dp);
    SelfKept(fs.g.bytsPerClus, fs.v, fs.ent, fs.chain, fs.owner, dp);
    var _, first := ReadSlot(fs, dp, off);
    var entcnt := LongCnt(first[0] as nat);
    assert DirChanged(fs, dp);
    hide Wrote, SameButCursor;
    var i := 0;
    EraseStep(slots, off / 32, 0);
    while i <= entcnt
      invariant 0 <= i <= entcnt + 1
      invariant DirChanged(fs, dp) && fs.chain == old(fs.chain)
      invariant Slots(fs, dp) == DirModel.Erase(slots, off / 32, i)
    {
      ghost var v1, ent1 := fs.v, fs.ent;
      assert (off + 32 * i) / 32 == off / 32 + i;
      PutBytes(fs, dp, off + 32 * i, [EMPTY_ENTRY]);
      WroteTrans(old(fs.v), old(fs.ent), old(fs.chain), v1, ent1, old(fs.chain), fs.v, fs.ent, fs.chain, dp);
      EraseStep(slots, off / 32, i);
      i := i + 1;
    }
  }

  lemma ErasedIs(slots: seq<Slot>, k: nat)
    requires k < |slots| && k + LongCnt(slots[k][0] as nat) < |slots|
    ensures ErasedBytes(slots, DirModel.Erase(slots, k, LongCnt(slots[k][0] as nat) + 1), k, Announced(slots[k][0]) + 1)
  {
    hide DirModel.Erase;
  }

  lemma EraseStep(slots: seq<Slot>, k: nat, i: nat)
    requires k + i < |slots|
    ensures DirModel.Erase(slots, k, 0) == slots
    ensures DirModel.Erase(slots, k, i + 1)
         == DirModel.Erase(slots, k, i)[k + i := Overwrite(DirModel.Erase(slots, k, i)[k + i], 0, [EMPTY_ENTRY])]
  {
    assert Overwrite(slots[k + i], 0, [EMPTY_ENTRY]) == slots[k + i][0 := EMPTY_ENTRY];
  }
}
