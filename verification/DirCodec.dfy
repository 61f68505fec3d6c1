/**
 On-disk directories (kernel/fs/fat32.c:10-39, 494-557, 732-878; sections 6 and 7 of the Microsoft
 FAT specification): 32-byte slots, long names split over 13-character entries, erased slots, and
 the scan that finds a name.  A directory is the sequence of all slots of its cluster chain.
 */
module DirCodec {
  import opened Bytes

  const ATTR_LONG_NAME: byte := 0x0f
  const LAST_LONG_ENTRY := 0x40
  const EMPTY_ENTRY: byte := 0xe5
  const END_OF_ENTRY: byte := 0x00
  const CHAR_LONG_NAME := 13
  const CHAR_SHORT_NAME := 11
  const MAX_NAME := 247  // 19 long-name entries; a twentieth would overrun the 256-byte name buffer

  type Slot = s: seq<byte> | |s| == 32 witness Zeros(32)

  /** What a directory says about one file. */
  datatype Info = Info(attr: byte, firstClus: nat, fileSize: nat)
  {
    predicate Valid() { attr != ATTR_LONG_NAME && firstClus < U32 && fileSize < U32 }
  }

  predicate NameOk(name: seq<byte>) {
    1 <= |name| <= MAX_NAME && forall i :: 0 <= i < |name| ==> name[i] != 0
  }

  predicate ShortOk(short: seq<byte>) {
    |short| == CHAR_SHORT_NAME && short[0] != EMPTY_ENTRY && short[0] != END_OF_ENTRY
  }

  // ---------- Encoding ----------

  /** Count of long-name entries, rounded up. */
  function EntCnt(len: nat): nat { (len + CHAR_LONG_NAME - 1) / CHAR_LONG_NAME }

  /** The wide character at position `pos` of `name`: a terminating zero, then 0xffff padding. */
  function Wide(name: seq<byte>, pos: nat): (r: seq<byte>)
    ensures |r| == 2
  {
    if pos < |name| then [name[pos], 0] else if pos == |name| then [0, 0] else [0xff, 0xff]
  }

  /** Byte offset of the `j`-th wide character inside a long-name slot. */
  function WideAt(j: nat): nat
    requires j < CHAR_LONG_NAME
  {
    if j < 5 then 1 + 2 * j else if j < 11 then 14 + 2 * (j - 5) else 28 + 2 * (j - 11)
  }

  /** First byte of long-name entry number `i`, counting from 1. */
  function OrderByte(name: seq<byte>, i: nat): byte
    requires 1 <= i <= 19
  {
    (i + if i == EntCnt(|name|) then LAST_LONG_ENTRY else 0) as byte
  }

  /** Byte `k` of long-name entry number `i` of `name`. */
  function LongByte(name: seq<byte>, i: nat, checksum: byte, k: nat): byte
    requires 1 <= i <= 19 && k < 32
  {
    var b := (i - 1) * CHAR_LONG_NAME;
    if k == 0 then OrderByte(name, i)
    else if k < 11 then Wide(name, b + (k - 1) / 2)[(k - 1) % 2]
    else if k == 11 then ATTR_LONG_NAME
    else if k == 13 then checksum
    else if 14 <= k < 26 then Wide(name, b + 5 + (k - 14) / 2)[k % 2]
    else if k >= 28 then Wide(name, b + 11 + (k - 28) / 2)[k % 2]
    else 0
  }

  /** Long-name entry number `i` of `name`, counting from 1. */
  function LongSlot(name: seq<byte>, i: nat, checksum: byte): (s: Slot)
    requires 1 <= i <= 19
    ensures s[0] == OrderByte(name, i) && s[11] == ATTR_LONG_NAME
  {
    seq(32, k requires 0 <= k < 32 => LongByte(name, i, checksum, k))
  }

  lemma LongSlotWides(name: seq<byte>, i: nat, checksum: byte)
    requires 1 <= i <= 19
    ensures Wides(LongSlot(name, i, checksum), name, (i - 1) * CHAR_LONG_NAME)
  {
    forall j: nat | j < CHAR_LONG_NAME
      ensures LongSlot(name, i, checksum)[WideAt(j)] == Wide(name, (i - 1) * CHAR_LONG_NAME + j)[0]
      ensures LongSlot(name, i, checksum)[WideAt(j) + 1] == Wide(name, (i - 1) * CHAR_LONG_NAME + j)[1]
    {
      LongSlotWide(name, i, checksum, j);
    }
  }

  lemma LongSlotWide(name: seq<byte>, i: nat, checksum: byte, j: nat)
    requires 1 <= i <= 19 && j < CHAR_LONG_NAME
    ensures LongSlot(name, i, checksum)[WideAt(j)] == Wide(name, (i - 1) * CHAR_LONG_NAME + j)[0]
    ensures LongSlot(name, i, checksum)[WideAt(j) + 1] == Wide(name, (i - 1) * CHAR_LONG_NAME + j)[1]
  {
    hide Wide;
    var k := WideAt(j);
    assert LongSlot(name, i, checksum)[k] == LongByte(name, i, checksum, k);
    assert LongSlot(name, i, checksum)[k + 1] == LongByte(name, i, checksum, k + 1);
    Halves(if j < 5 then j else if j < 11 then j - 5 else j - 11);
  }

  lemma Halves(j: nat)
    ensures 2 * j / 2 == j && (2 * j + 1) / 2 == j && 2 * j % 2 == 0 && (2 * j + 1) % 2 == 1
  {
  }

  function ShortSlot(short: seq<byte>, info: Info): (s: Slot)
    requires |short| == CHAR_SHORT_NAME && info.Valid()
    ensures s[..11] == short && SlotInfo(s) == info
  {
    short + [info.attr] + Zeros(8) + Enc16(info.firstClus / 65536) + Zeros(4)
    + Enc16(info.firstClus % 65536) + Enc32(info.fileSize)
  }

  function SlotInfo(s: Slot): Info {
    Info(s[11], Le16(s, 20) * 65536 + Le16(s, 26), Le32(s, 28))
  }

  /** The checksum of a short name: rotate right, then add, in eight bits. */
  function Checksum(short: seq<byte>, sum: byte := 0): byte {
    if short == [] then sum
    else Checksum(short[1..], (((if sum % 2 == 1 then 0x80 else 0) + sum as int / 2 + short[0] as int) % 256) as byte)
  }

  /** The long-name entries `i, i - 1, ..., 1` of `name`. */
  function LongSlots(name: seq<byte>, i: nat, checksum: byte): (r: seq<Slot>)
    requires i <= 19
    ensures |r| == i
  {
    if i == 0 then [] else [LongSlot(name, i, checksum)] + LongSlots(name, i - 1, checksum)
  }

  /** All slots of one entry. */
  function Encode(name: seq<byte>, short: seq<byte>, info: Info): (r: seq<Slot>)
    requires NameOk(name) && ShortOk(short) && info.Valid()
    ensures |r| == EntCnt(|name|) + 1
  {
    LongSlots(name, EntCnt(|name|), Checksum(short)) + [ShortSlot(short, info)]
  }

  // ---------- Decoding ----------

  /** The bytes of a buffer before its first zero. */
  function CStr(b: seq<byte>): (r: seq<byte>)
    ensures |r| <= |b|
  {
    if b == [] || b[0] == 0 then [] else [b[0]] + CStr(b[1..])
  }

  /** `snstr`: copy `len` wide characters of `s`; a zero one ends the copy and all but the last later byte is cleared.
   */
  function Snstr(buf: seq<byte>, dst: nat, s: Slot, first: nat, len: nat): (r: seq<byte>)
    requires dst + len <= |buf| && first + len <= CHAR_LONG_NAME
    ensures |r| == |buf|
    decreases |buf| - dst
  {
    if len == 0 then buf
    else if s[WideAt(first)] == 0 && s[WideAt(first) + 1] == 0 then Overwrite(buf, dst, Zeros(len - 1))
    else Snstr(buf[dst := s[WideAt(first)]], dst + 1, s, first + 1, len - 1)
  }

  /** `read_entry_name` for a long entry. */
  function ReadLongName(buf: seq<byte>, dst: nat, s: Slot): (r: seq<byte>)
    requires dst + CHAR_LONG_NAME <= |buf|
    ensures |r| == |buf|
  {
    Snstr(Snstr(Snstr(buf, dst, s, 0, 5), dst + 5, s, 5, 6), dst + 11, s, 11, 2)
  }

  /** The part of a short name up to a space, at most `n` bytes. */
  function UpToSpace(b: seq<byte>): seq<byte> {
    if b == [] || b[0] == 0x20 then [] else [b[0]] + UpToSpace(b[1..])
  }

  /** `read_entry_name` for a short entry: base name, dot, extension. */
  function ReadShortName(s: Slot): seq<byte> {
    CStr(UpToSpace(s[0..8]) + (if s[8] != 0x20 then [0x2e] else []) + UpToSpace(s[8..11]))
  }

  datatype Next =
    | End
    | Empty(count: nat)
    | Found(count: nat, name: seq<byte>, info: Info)
    | Bad  // out-of-bounds name offset or null count pointer: no directory written by this code

  /** The variables of `enext`: erased slots seen, what the first long entry announced, and the name buffer. */
  datatype State = State(cnt: nat, count: Option<nat>, buf: seq<byte>)
  {
    predicate Valid() { |buf| == 256 }
  }

  datatype Step = Stop(next: Next) | Go(st: State)

  function LongCnt(order: nat): nat {
    if order / LAST_LONG_ENTRY % 2 == 1 then order - LAST_LONG_ENTRY else order
  }

  /** One round of the loop of `enext`, on slot `s`. */
  function ParseSlot(s: Slot, st: State): (r: Step)
    requires st.Valid()
    ensures r.Go? ==> r.st.Valid()
  {
    if s[0] == END_OF_ENTRY then Stop(End)
    else if s[0] == EMPTY_ENTRY then Go(st.(cnt := st.cnt + 1))
    else if st.cnt > 0 then Stop(if st.count == None then Empty(st.cnt) else Bad)
    else if s[11] == ATTR_LONG_NAME then
      var lcnt := LongCnt(s[0] as nat);
      var last := lcnt != s[0] as nat;
      if lcnt == 0 || lcnt * CHAR_LONG_NAME > 256 || (last && st.count != None) then Stop(Bad)
      else Go(State(0, if last then Some(lcnt + 1) else st.count,
                    ReadLongName(st.buf, (lcnt - 1) * CHAR_LONG_NAME, s)))
    else
      match st.count
      case None => Stop(Found(1, ReadShortName(s), SlotInfo(s)))
      case Some(c) => Stop(Found(c, CStr(st.buf), SlotInfo(s)))
  }

  /** The loop of `enext`; running off the end of the chain ends the directory. */
  function ParseFrom(slots: seq<Slot>, k: nat, st: State): Next
    requires st.Valid()
    decreases |slots| - k
  {
    if k >= |slots| then End
    else
      match ParseSlot(slots[k], st)
      case Stop(next) => next
      case Go(st') => ParseFrom(slots, k + 1, st')
  }

  const INIT := State(0, None, Zeros(256))

  /** `enext`: parse the entry at slot `k`. */
  function Parse(slots: seq<Slot>, k: nat): Next {
    ParseFrom(slots, k, INIT)
  }

  // ---------- A long name survives encoding and decoding ----------

  /** The buffer holds the end of `name` from `from` on, and its terminating zero. */
  ghost predicate BufOk(buf: seq<byte>, name: seq<byte>, from: nat) {
    && |buf| == 256 && |name| < 256
    && (forall p :: from <= p < |name| ==> buf[p] == name[p])
    && buf[|name|] == 0
  }

  /** The thirteen wide characters of slot `s` are those of `name` from `base` on. */
  ghost predicate Wides(s: Slot, name: seq<byte>, base: nat) {
    forall j {:trigger WideAt(j)} :: 0 <= j < CHAR_LONG_NAME ==>
      s[WideAt(j)] == Wide(name, base + j)[0] && s[WideAt(j) + 1] == Wide(name, base + j)[1]
  }

  /** What copying into [lo, hi) does to the buffer, as far as `name` is concerned. */
  ghost predicate Copied(buf: seq<byte>, r: seq<byte>, name: seq<byte>, lo: nat, hi: nat) {
    && |r| == |buf|
    && forall p :: 0 <= p < |buf| ==>
         && (p < lo || p >= hi ==> r[p] == buf[p])
         && (lo <= p < hi && p < |name| ==> r[p] == name[p])
         && (p == |name| && buf[p] == 0 ==> r[p] == 0)
  }

  lemma {:induction false} SnstrCopies(buf: seq<byte>, s: Slot, name: seq<byte>, base: nat, first: nat, len: nat)
    requires base + first + len <= |buf| && first + len <= CHAR_LONG_NAME
    requires forall i :: 0 <= i < |name| ==> name[i] != 0
    requires Wides(s, name, base)
    ensures Copied(buf, Snstr(buf, base + first, s, first, len), name, base + first, base + first + len)
    decreases len
  {
    if len > 0 {
      var pos := base + first;
      assert s[WideAt(first)] == Wide(name, pos)[0] && s[WideAt(first) + 1] == Wide(name, pos)[1];
      if !(s[WideAt(first)] == 0 && s[WideAt(first) + 1] == 0) {
        SnstrCopies(buf[pos := s[WideAt(first)]], s, name, base, first + 1, len - 1);
      }
    }
  }

  lemma CopiedJoin(a: seq<byte>, b: seq<byte>, c: seq<byte>, name: seq<byte>, lo: nat, mid: nat, hi: nat)
    requires Copied(a, b, name, lo, mid) && Copied(b, c, name, mid, hi) && lo <= mid <= hi
    ensures Copied(a, c, name, lo, hi)
  {
  }

  lemma ReadLongCopies(buf: seq<byte>, s: Slot, name: seq<byte>, base: nat)
    requires base + CHAR_LONG_NAME <= |buf| && Wides(s, name, base)
    requires forall i :: 0 <= i < |name| ==> name[i] != 0
    ensures Copied(buf, ReadLongName(buf, base, s), name, base, base + CHAR_LONG_NAME)
  {
    var b1 := Snstr(buf, base, s, 0, 5);
    var b2 := Snstr(b1, base + 5, s, 5, 6);
    var b3 := Snstr(b2, base + 11, s, 11, 2);
    SnstrCopies(buf, s, name, base, 0, 5);
    SnstrCopies(b1, s, name, base, 5, 6);
    SnstrCopies(b2, s, name, base, 11, 2);
    CopiedJoin(buf, b1, b2, name, base, base + 5, base + 11);
    CopiedJoin(buf, b2, b3, name, base, base + 11, base + 13);
  }

  lemma {:induction false} CStrOf(b: seq<byte>, name: seq<byte>)
    requires |name| < |b| && b[..|name|] == name && b[|name|] == 0
    requires forall i :: 0 <= i < |name| ==> name[i] != 0
    ensures CStr(b) == name
  {
    if name != [] {
      assert b[0] == b[..|name|][0] == name[0];
      assert b[1..][..|name| - 1] == b[..|name|][1..] == name[1..];
      CStrOf(b[1..], name[1..]);
    }
  }

  /** From `k` up to `end` lie the last long entries of an encoding. */
  ghost predicate LongTail(slots: seq<Slot>, k: nat, name: seq<byte>, end: nat, checksum: byte) {
    && k <= end <= k + 19 && end < |slots|
    && forall p :: k <= p < end ==> slots[p] == LongSlot(name, end - p, checksum)
  }

  /** A cold parse of an encoded entry gives back the name, the length and the information. */
  lemma {:induction false} ParseLong(slots: seq<Slot>, k: nat, name: seq<byte>, short: seq<byte>, info: Info,
                                     end: nat, st: State)
    requires NameOk(name) && ShortOk(short) && info.Valid()
    requires LongTail(slots, k, name, end, Checksum(short)) && slots[end] == ShortSlot(short, info)
    requires end - k <= EntCnt(|name|) && st.cnt == 0
    requires st.count == if end - k == EntCnt(|name|) then None else Some(EntCnt(|name|) + 1)
    requires BufOk(st.buf, name, (end - k) * CHAR_LONG_NAME)
    ensures ParseFrom(slots, k, st) == Found(EntCnt(|name|) + 1, name, info)
    decreases end - k
  {
    hide LongSlot, ShortSlot, ParseSlot, Checksum, CStr;
    if k == end {
      assert st.buf[..|name|] == name;
      CStrOf(st.buf, name);
      ParseShortSlot(short, info, st);
    } else {
      var st' := ParseLongSlot(name, end - k, Checksum(short), st);
      ParseGo(slots, k, st, st');
      ParseLong(slots, k + 1, name, short, info, end, st');
    }
  }

  lemma ParseShortSlot(short: seq<byte>, info: Info, st: State)
    requires ShortOk(short) && info.Valid() && st.Valid() && st.cnt == 0 && st.count.Some?
    ensures ParseSlot(ShortSlot(short, info), st) == Stop(Found(st.count.value, CStr(st.buf), info))
  {
    var s := ShortSlot(short, info);
    assert s[0] == s[..11][0] == short[0];
  }

  lemma ParseGo(slots: seq<Slot>, k: nat, st: State, st': State)
    requires k < |slots| && st.Valid() && ParseSlot(slots[k], st) == Go(st')
    ensures ParseFrom(slots, k, st) == ParseFrom(slots, k + 1, st')
  {
  }

  lemma ParseLongSlot(name: seq<byte>, i: nat, checksum: byte, st: State) returns (st': State)
    requires NameOk(name) && 1 <= i <= 19 && st.cnt == 0
    requires st.count == if i == EntCnt(|name|) then None else Some(EntCnt(|name|) + 1)
    requires BufOk(st.buf, name, i * CHAR_LONG_NAME)
    ensures ParseSlot(LongSlot(name, i, checksum), st) == Go(st')
    ensures st'.cnt == 0 && st'.count == Some(EntCnt(|name|) + 1) && BufOk(st'.buf, name, (i - 1) * CHAR_LONG_NAME)
  {
    var s := LongSlot(name, i, checksum);
    LongSlotWides(name, i, checksum);
    ParseOrder(s, i, i == EntCnt(|name|), st);
    var base := (i - 1) * CHAR_LONG_NAME;
    var buf := ReadLongName(st.buf, base, s);
    ReadLongCopies(st.buf, s, name, base);
    CopiedBuf(st.buf, buf, name, base);
    st' := State(0, Some(EntCnt(|name|) + 1), buf);
  }

  lemma CopiedBuf(buf: seq<byte>, r: seq<byte>, name: seq<byte>, base: nat)
    requires BufOk(buf, name, base + CHAR_LONG_NAME) && Copied(buf, r, name, base, base + CHAR_LONG_NAME)
    ensures BufOk(r, name, base)
  {
  }

  lemma ParseOrder(s: Slot, i: nat, last: bool, st: State)
    requires 1 <= i <= 19 && st.Valid() && st.cnt == 0 && (last ==> st.count == None)
    requires s[0] as nat == i + (if last then LAST_LONG_ENTRY else 0) && s[11] == ATTR_LONG_NAME
    ensures ParseSlot(s, st) == Go(State(0, if last then Some(i + 1) else st.count,
                                         ReadLongName(st.buf, (i - 1) * CHAR_LONG_NAME, s)))
  {
    OrderCnt(i);
  }

  lemma OrderCnt(i: nat)
    requires 1 <= i <= 19
    ensures LongCnt(i) == i && LongCnt(i + LAST_LONG_ENTRY) == i
  {
  }
}
