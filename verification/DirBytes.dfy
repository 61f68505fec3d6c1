/**
 The slots of directories byte by byte, with positions and values written out (kernel/fs/fat32.c:10-39; sections 6
 and 7 of the Microsoft FAT specification): what `DirCodec` and `DirModel` encode and decode is this layout.
 */
module DirBytes {
  import opened Bytes
  import opened DirCodec
  import opened DirModel

  // ---------- The layout ----------

  /** Attribute, first cluster and size of a short slot. */
  ghost predicate InfoBytes(s: Slot, info: Info) {
    && s[11] == info.attr
    && info.firstClus == s[26] as int + 256 * s[27] as int + 65536 * s[20] as int + 16777216 * s[21] as int
    && info.fileSize == s[28] as int + 256 * s[29] as int + 65536 * s[30] as int + 16777216 * s[31] as int
  }

  /** A short slot as `emake` writes it: the fields that are not used are zero. */
  ghost predicate ShortBytes(s: Slot, short: seq<byte>, info: Info) {
    && |short| == 11 && (forall i {:trigger s[i]} :: 0 <= i < 11 ==> s[i] == short[i]) && InfoBytes(s, info)
    && (forall i {:trigger s[i]} :: 12 <= i < 20 || 22 <= i < 26 ==> s[i] == 0)
  }

  /** Where the low byte of character number `j` of a long slot is. */
  function CharAt(j: nat): (p: nat)
    requires j < 13
    ensures p < 31
  {
    [1, 3, 5, 7, 9, 14, 16, 18, 20, 22, 24, 28, 30][j]
  }

  /** Character number `p` of a name: its byte and 0, then 0 and 0, then 255 and 255. */
  ghost predicate CharBytes(lo: byte, hi: byte, name: seq<byte>, p: nat) {
    if p < |name| then lo == name[p] && hi == 0 else if p == |name| then lo == hi == 0 else lo == hi == 255
  }

  /** Long slot number `i` of `n`: number, mark of the last one, attribute 15, checksum, and thirteen characters. */
  ghost predicate LongBytes(s: Slot, name: seq<byte>, i: nat, n: nat, sum: byte)
    requires i >= 1
  {
    && s[0] as int == i + (if i == n then 64 else 0)
    && s[11] == 15 && s[12] == 0 && s[13] == sum && s[26] == 0 && s[27] == 0
    && forall j {:trigger CharAt(j)} :: 0 <= j < 13 ==>
         CharBytes(s[CharAt(j)], s[CharAt(j) + 1], name, 13 * (i - 1) + j)
  }

  /** From slot `k` on lies the entry for `name`: its long slots from the last to the first, and the short one. */
  ghost predicate EntryBytes(slots: seq<Slot>, k: nat, name: seq<byte>, short: seq<byte>, sum: byte, info: Info) {
    var n := (|name| + 12) / 13;
    && k + n < |slots|
    && (forall p {:trigger slots[p]} :: k <= p < k + n ==> LongBytes(slots[p], name, k + n - p, n, sum))
    && ShortBytes(slots[k + n], short, info)
  }

  /** A "." or ".." slot for the directory in cluster `f`. */
  ghost predicate DotBytes(s: Slot, dots: nat, f: nat) {
    && (forall i {:trigger s[i]} :: 0 <= i < 11 ==> s[i] == if i < dots then 46 else 32)
    && InfoBytes(s, Info(16, f, 0))
    && (forall i {:trigger s[i]} :: 12 <= i < 20 || 22 <= i < 26 ==> s[i] == 0)
  }

  // ---------- What is written ----------

  lemma WordBytes(v: nat, b: seq<byte>)
    requires v < U32 && b == Enc32(v)
    ensures b[0] as int + 256 * b[1] as int + 65536 * b[2] as int + 16777216 * b[3] as int == v
  {
    assert Le32(b, 0) == v;
  }

  lemma HalfBytes(v: nat, hi: seq<byte>, lo: seq<byte>)
    requires v < U32 && hi == Enc16(v / 65536) && lo == Enc16(v % 65536)
    ensures lo[0] as int + 256 * lo[1] as int + 65536 * hi[0] as int + 16777216 * hi[1] as int == v
  {
    assert Le16(lo, 0) == v % 65536 && Le16(hi, 0) == v / 65536;
  }

  lemma ShortSlotBytes(short: seq<byte>, info: Info)
    requires |short| == 11 && info.Valid()
    ensures ShortBytes(ShortSlot(short, info), short, info)
  {
    var s := ShortSlot(short, info);
    var hi, lo, sz := Enc16(info.firstClus / 65536), Enc16(info.firstClus % 65536), Enc32(info.fileSize);
    HalfBytes(info.firstClus, hi, lo);
    WordBytes(info.fileSize, sz);
    hide Enc16, Enc32;
    assert s[20] == hi[0] && s[21] == hi[1] && s[26] == lo[0] && s[27] == lo[1];
    assert s[28] == sz[0] && s[29] == sz[1] && s[30] == sz[2] && s[31] == sz[3];
  }

  lemma LongSlotChar(name: seq<byte>, i: nat, checksum: byte, j: nat)
    requires 1 <= i <= 19 && j < 13
    ensures var s := LongSlot(name, i, checksum); CharBytes(s[CharAt(j)], s[CharAt(j) + 1], name, 13 * (i - 1) + j)
  {
    LongSlotWide(name, i, checksum, j);
    hide LongSlot;
    assert WideAt(j) == CharAt(j);
  }

  lemma LongSlotFields(name: seq<byte>, i: nat, checksum: byte)
    requires 1 <= i <= 19
    ensures var s := LongSlot(name, i, checksum);
      s[0] == OrderByte(name, i) && s[11] == 15 && s[12] == 0 && s[13] == checksum && s[26] == 0 && s[27] == 0
  {
    hide Wide;
    var s := LongSlot(name, i, checksum);
    assert s[12] == LongByte(name, i, checksum, 12) && s[13] == LongByte(name, i, checksum, 13);
    assert s[26] == LongByte(name, i, checksum, 26) && s[27] == LongByte(name, i, checksum, 27);
  }

  lemma LongSlotLayout(name: seq<byte>, i: nat, checksum: byte)
    requires 1 <= i <= 19
    ensures LongBytes(LongSlot(name, i, checksum), name, i, (|name| + 12) / 13, checksum)
  {
    hide LongSlot, CharAt, CharBytes;
    LongSlotFields(name, i, checksum);
    forall j: nat | j < 13
      ensures var s := LongSlot(name, i, checksum); CharBytes(s[CharAt(j)], s[CharAt(j) + 1], name, 13 * (i - 1) + j)
    {
      LongSlotChar(name, i, checksum, j);
    }
  }

  lemma {:induction false} LongSlotsAt(name: seq<byte>, i: nat, checksum: byte, p: nat)
    requires p < i <= 19
    ensures LongSlots(name, i, checksum)[p] == LongSlot(name, i - p, checksum)
  {
    hide LongSlot;
    if p > 0 {
      LongSlotsAt(name, i - 1, checksum, p - 1);
    }
  }

  lemma EncodeAt(name: seq<byte>, short: seq<byte>, info: Info, q: nat)
    requires NameOk(name) && ShortOk(short) && info.Valid() && q <= EntCnt(|name|)
    ensures EntCnt(|name|) <= 19
    ensures Encode(name, short, info)[q] == if q < EntCnt(|name|) then
      LongSlot(name, EntCnt(|name|) - q, Checksum(short))
                                            else ShortSlot(short, info)
  {
    hide LongSlot, ShortSlot, Checksum;
    if q < EntCnt(|name|) {
      LongSlotsAt(name, EntCnt(|name|), Checksum(short), q);
    }
  }

  lemma EncodePart(name: seq<byte>, short: seq<byte>, info: Info, p: nat)
    requires NameOk(name) && ShortOk(short) && info.Valid() && p <= EntCnt(|name|)
    ensures var s, n := Encode(name, short, info)[p], (|name| + 12) / 13;
      if p < n then LongBytes(s, name, n - p, n, Checksum(short)) else ShortBytes(s, short, info)
  {
    EncodeAt(name, short, info, p);
    hide LongSlot, ShortSlot, Checksum, LongBytes, ShortBytes, LongSlots, Encode;
    if p < EntCnt(|name|) {
      LongSlotLayout(name, EntCnt(|name|) - p, Checksum(short));
    } else {
      ShortSlotBytes(short, info);
    }
  }

  /** The slots of an entry are laid out so. */
  lemma EncodeBytes(name: seq<byte>, short: seq<byte>, info: Info)
    requires NameOk(name) && ShortOk(short) && info.Valid()
    ensures EntryBytes(Encode(name, short, info), 0, name, short, Checksum(short), info)
  {
    hide LongSlot, ShortSlot, Checksum, LongBytes, ShortBytes, LongSlots, Encode;
    var enc, n := Encode(name, short, info), (|name| + 12) / 13;
    forall p: nat | p < n
      ensures LongBytes(enc[p], name, n - p, n, Checksum(short))
    {
      EncodePart(name, short, info, p);
    }
    EncodePart(name, short, info, n);
  }

  /** Wherever they are stored. */
  lemma StoredBytes(slots: seq<Slot>, k: nat, enc: seq<Slot>, name: seq<byte>, short: seq<byte>, sum: byte, info: Info)
    requires EntryBytes(enc, 0, name, short, sum, info) && |enc| == (|name| + 12) / 13 + 1 && k + |enc| <= |slots|
    requires forall p {:trigger slots[p]} :: k <= p < k + |enc| ==> slots[p] == enc[p - k]
    ensures EntryBytes(slots, k, name, short, sum, info)
  {
    hide LongBytes, ShortBytes;
    var n := |enc| - 1;
    forall p: nat | k <= p < k + n
      ensures LongBytes(slots[p], name, k + n - p, n, sum)
    {
      assert slots[p] == enc[p - k];
    }
  }

  /** Rewriting the short slot changes first cluster and size, and no other byte. */
  lemma PatchBytes(s: Slot, firstClus: nat, fileSize: nat)
    requires firstClus < U32 && fileSize < U32
    ensures var r := Patch(s, firstClus, fileSize);
      && InfoBytes(r, Info(s[11], firstClus, fileSize))
      && forall i {:trigger r[i]} :: 0 <= i < 20 || 22 <= i < 26 ==> r[i] == s[i]
  {
    var r := Patch(s, firstClus, fileSize);
    var hi, lo, sz := Enc16(firstClus / 65536), Enc16(firstClus % 65536), Enc32(fileSize);
    HalfBytes(firstClus, hi, lo);
    WordBytes(fileSize, sz);
    hide Enc16, Enc32;
    assert r[20] == hi[0] && r[21] == hi[1] && r[26] == lo[0] && r[27] == lo[1];
    assert r[28] == sz[0] && r[29] == sz[1] && r[30] == sz[2] && r[31] == sz[3];
  }

  /** "." names the directory itself and ".." its parent. */
  lemma DotSlotBytes(k: nat, f: nat)
    requires f < U32
    ensures DotBytes(DotSlot(k, f), if k == 0 then 1 else 2, f)
  {
    var short := if k == 0 then DOT + seq(10, _ => 0x20) else DOTDOT + seq(9, _ => 0x20);
    ShortSlotBytes(short, Info(0x10, f, 0));
    hide ShortSlot;
  }

  // ---------- What is read ----------

  /** The slot at which a parse from `k` on stops with an entry: all before it are long slots. */
  ghost predicate StopsAt(slots: seq<Slot>, k: nat, p: nat, info: Info) {
    && k <= p < |slots| && slots[p][0] != 0 && slots[p][0] != 229 && slots[p][11] != 15 && InfoBytes(slots[p], info)
    && forall q {:trigger slots[q]} :: k <= q < p ==> slots[q][0] != 0 && slots[q][0] != 229 && slots[q][11] == 15
  }

  /** What a parse says about an entry is in the bytes of the slot it stops at. */
  lemma {:induction false} ParseBytes(slots: seq<Slot>, k: nat, st: State) returns (p: nat)
    requires st.Valid() && st.cnt == 0 && ParseFrom(slots, k, st).Found?
    ensures StopsAt(slots, k, p, ParseFrom(slots, k, st).info)
    ensures st.count == None && p == k ==> ParseFrom(slots, k, st).count == 1
    decreases |slots| - k
  {
    hide ReadLongName, ReadShortName, CStr;
    p := k;
    if slots[k][11] == 15 {
      var st' := ParseSlot(slots[k], st).st;
      if slots[k][0] == 229 {
        ErasedFirst(slots, k + 1, st');
      }
      p := ParseBytes(slots, k + 1, st');
    } else if slots[k][0] == 229 {
      ErasedFirst(slots, k + 1, ParseSlot(slots[k], st).st);
    }
  }

  /** Behind an erased slot a parse never finds an entry. */
  lemma {:induction false} ErasedFirst(slots: seq<Slot>, k: nat, st: State)
    requires st.Valid() && st.cnt > 0
    ensures !ParseFrom(slots, k, st).Found?
    decreases |slots| - k
  {
    if k < |slots| && slots[k][0] == 229 {
      ErasedFirst(slots, k + 1, ParseSlot(slots[k], st).st);
    }
  }

  /** A slot that begins with 0 ends the directory; a run of slots that begin with 229 is counted. */
  lemma {:induction false} MarkBytes(slots: seq<Slot>, k: nat, m: nat, st: State)
    requires st.Valid() && st.count == None && k + m <= |slots|
    requires forall p {:trigger slots[p]} :: k <= p < k + m ==> slots[p][0] == 229
    ensures k + m < |slots| && slots[k + m][0] == 0 ==> ParseFrom(slots, k, st) == End
    ensures k + m == |slots| ==> ParseFrom(slots, k, st) == End
    ensures k + m < |slots| && slots[k + m][0] != 0 && slots[k + m][0] != 229 && st.cnt + m > 0 ==>
      ParseFrom(slots, k, st) == Empty(st.cnt + m)
    decreases m
  {
    if m > 0 {
      assert slots[k][0] == 229;
      MarkBytes(slots, k + 1, m - 1, st.(cnt := st.cnt + 1));
    }
  }

  /** What a scan finds is in the bytes of the slot it stops at, which lies behind the offset it returns. */
  lemma {:induction false} ScanBytes(slots: seq<Slot>, k: nat, name: seq<byte>) returns (p: nat)
    requires name != [] && Scan(slots, k, name).Hit?
    ensures StopsAt(slots, Scan(slots, k, name).off, p, Scan(slots, k, name).info)
    decreases |slots| - k
  {
    hide ParseFrom, StopsAt;
    match Parse(slots, k)
    case Found(count, n, info) =>
      if n == name {
        p := ParseBytes(slots, k, INIT);
      } else {
        p := ScanBytes(slots, k + count, name);
      }
    case Empty(count) => p := ScanBytes(slots, k + count, name);
    case _ =>
  }

  /** The information is in the bytes of a slot, if there is any. */
  ghost predicate InSlots(slots: seq<Slot>, k: nat, info: Info) { exists p: nat :: StopsAt(slots, k, p, info) }

  lemma ParseInfo(slots: seq<Slot>, k: nat)
    ensures Parse(slots, k).Found? ==> InSlots(slots, k, Parse(slots, k).info)
  {
    hide ParseFrom, StopsAt;
    if Parse(slots, k).Found? {
      var p := ParseBytes(slots, k, INIT);
    }
  }

  lemma ScanInfo(slots: seq<Slot>, name: seq<byte>)
    requires name != []
    ensures Scan(slots, 0, name).Hit? ==> InSlots(slots, Scan(slots, 0, name).off, Scan(slots, 0, name).info)
  {
    hide Scan, StopsAt;
    if Scan(slots, 0, name).Hit? {
      var p := ScanBytes(slots, 0, name);
    }
  }

  /** The count of long slots that the first byte of an entry announces: the byte without the mark 64. */
  function Announced(order: byte): nat { if order as int / 64 % 2 == 1 then order as int - 64 else order as int }

  /** From `k` on `m` slots are marked erased by their first byte, and nothing else is changed. */
  ghost predicate ErasedBytes(slots: seq<Slot>, slots': seq<Slot>, k: nat, m: nat) {
    && |slots'| == |slots|
    && forall p {:trigger slots'[p]} :: 0 <= p < |slots| ==>
         slots'[p] == if k <= p < k + m then slots[p][0 := 229] else slots[p]
  }

  /** Only slot `p` is changed, and there only first cluster and size, which are these. */
  ghost predicate UpdatedBytes(slots: seq<Slot>, slots': seq<Slot>, p: nat, firstClus: nat, fileSize: nat) {
    && p < |slots| && |slots'| == |slots| && slots' == slots[p := slots'[p]]
    && InfoBytes(slots'[p], Info(slots[p][11], firstClus, fileSize))
    && forall i {:trigger slots'[p][i]} :: 0 <= i < 20 || 22 <= i < 26 ==> slots'[p][i] == slots[p][i]
  }

  // ---------- The checksum ----------

  /** One step of the checksum: the sum rotated right by one bit, plus the next character, in eight bits. */
  function Rotated(sum: byte): int { sum as int / 2 + 128 * (sum as int % 2) }

  lemma {:induction false} ChecksumStep(short: seq<byte>, c: byte, sum: byte)
    ensures Checksum(short + [c], sum) as int == (Rotated(Checksum(short, sum)) + c as int) % 256
    ensures Checksum([], sum) == sum
  {
    if short == [] {
      assert (short + [c])[1..] == [];
    } else {
      assert (short + [c])[1..] == short[1..] + [c];
      var next := (((if sum % 2 == 1 then 0x80 else 0) + sum as int / 2 + short[0] as int) % 256) as byte;
      ChecksumStep(short[1..], c, next);
    }
  }

  /** The rotation as one of an eight-bit word. */
  lemma RotatedBits(x: bv8)
    ensures x.RotateRight(1) as int == x as int / 2 + 128 * (x as int % 2)
  {
  }
}
