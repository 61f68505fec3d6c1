/**
 What the slots of a directory mean: a list of items, and through it a map from names to
 information.  Scanning, inserting, updating and erasing slots are lookup, insertion, change and
 removal in that map (kernel/fs/fat32.c:494-557, 615-650, 784-878).
 */
module DirModel {
  import opened Bytes
  import opened DirCodec

  const DOT: seq<byte> := [0x2e]
  const DOTDOT: seq<byte> := [0x2e, 0x2e]

  datatype Item = Erased | Dot(raw: Slot) | Long(name: seq<byte>, short: seq<byte>, info: Info)
  {
    /** Short-only slots are "." and ".." and nothing else; those two names have no long entry. */
    predicate Valid() {
      match this
      case Erased => true
      case Dot(raw) =>
        && raw[0] != EMPTY_ENTRY && raw[0] != END_OF_ENTRY && raw[11] != ATTR_LONG_NAME
        && ReadShortName(raw) in {DOT, DOTDOT}
      case Long(name, short, info) => NameOk(name) && name !in {DOT, DOTDOT} && ShortOk(short) && info.Valid()
    }

    function Len(): nat {
      if Long? then EntCnt(|name|) + 1 else 1
    }
  }

  /** Item `it` occupies the slots from `k` on. */
  ghost predicate ItemAt(slots: seq<Slot>, k: nat, it: Item) {
    && it.Valid() && k + it.Len() <= |slots|
    && match it
       case Erased => slots[k][0] == EMPTY_ENTRY
       case Dot(raw) => slots[k] == raw
       case Long(name, short, info) =>
         && LongTail(slots, k, name, k + EntCnt(|name|), Checksum(short))
         && slots[k + EntCnt(|name|)] == ShortSlot(short, info)
  }

  /** From slot `k` on the directory consists of `items`, and after them only unused slots. */
  ghost predicate Holds(slots: seq<Slot>, k: nat, items: seq<Item>)
    decreases items
  {
    if items == [] then k <= |slots| && forall p :: k <= p < |slots| ==> slots[p][0] == END_OF_ENTRY
    else ItemAt(slots, k, items[0]) && Holds(slots, k + items[0].Len(), items[1..])
  }

  /** The directory as a map; an earlier item hides a later one of the same name. */
  function MapOf(items: seq<Item>): map<seq<byte>, Info> {
    if items == [] then map[]
    else if items[0].Long? then MapOf(items[1..])[items[0].name := items[0].info]
    else MapOf(items[1..])
  }

  /** No name occurs twice. */
  predicate Unique(items: seq<Item>) {
    items == [] || ((items[0].Long? ==> items[0].name !in MapOf(items[1..])) && Unique(items[1..]))
  }

  predicate AllErased(items: seq<Item>) {
    items == [] || (items[0].Erased? && AllErased(items[1..]))
  }

  /** Slot at which `name` starts. */
  function OffOf(items: seq<Item>, k: nat, name: seq<byte>): nat
    requires name in MapOf(items)
  {
    if items[0].Long? && items[0].name == name then k else OffOf(items[1..], k + items[0].Len(), name)
  }

  /** Slot after the last item that is not erased: the end of the directory, or its trailing erased run. */
  function EndOff(items: seq<Item>, k: nat): nat {
    if AllErased(items) then k else EndOff(items[1..], k + items[0].Len())
  }

  // ---------- Scanning ----------

  datatype Found = Hit(off: nat, info: Info) | Miss(off: nat) | Broken

  /** The loop of `dirlookup` (kernel/fs/fat32.c:859-878).  A run of erased slots never matches a name. */
  function Scan(slots: seq<Slot>, k: nat, name: seq<byte>): Found
    requires name != []
    decreases |slots| - k
  {
    if k > |slots| then Miss(k) else
    match Parse(slots, k)
    case End => Miss(k)
    case Bad => Broken
    case Empty(count) => if count == 0 then Broken else Scan(slots, k + count, name)
    case Found(count, n, info) =>
      if n == name then Hit(k, info) else if count == 0 then Broken else Scan(slots, k + count, name)
  }

  /** Length of the erased run at the front. */
  function Run(items: seq<Item>): nat {
    if items != [] && items[0].Erased? then 1 + Run(items[1..]) else 0
  }

  /** `enext` at a run of erased slots counts it, or finds the end of the directory behind it. */
  lemma {:induction false} ParseRun(slots: seq<Slot>, k: nat, items: seq<Item>, cnt: nat)
    requires Holds(slots, k, items) && (cnt > 0 || items == [] || items[0].Erased?)
    ensures ParseFrom(slots, k, INIT.(cnt := cnt)) == if AllErased(items) then End else Empty(cnt + Run(items))
    decreases items
  {
    if items != [] && items[0].Erased? {
      ParseRun(slots, k + 1, items[1..], cnt + 1);
    } else if items != [] && items[0].Long? {
      var it := items[0];
      assert slots[k] == LongSlot(it.name, EntCnt(|it.name|), Checksum(it.short));
    }
  }

  /** `enext` at a long item returns exactly that item. */
  lemma ParseItem(slots: seq<Slot>, k: nat, it: Item)
    requires ItemAt(slots, k, it) && it.Long?
    ensures Parse(slots, k) == DirCodec.Found(it.Len(), it.name, it.info)
  {
    ParseLong(slots, k, it.name, it.short, it.info, k + EntCnt(|it.name|), INIT);
  }

  lemma ParseDot(slots: seq<Slot>, k: nat, it: Item)
    requires ItemAt(slots, k, it) && it.Dot?
    ensures Parse(slots, k) == DirCodec.Found(1, ReadShortName(it.raw), SlotInfo(it.raw))
  {
  }

  /** What one round of the scan does at each kind of item. */
  lemma ScanItem(slots: seq<Slot>, k: nat, it: Item, name: seq<byte>)
    requires ItemAt(slots, k, it) && !it.Erased? && name != [] && name !in {DOT, DOTDOT}
    ensures Scan(slots, k, name) ==
            if it.Long? && it.name == name then Hit(k, it.info) else Scan(slots, k + it.Len(), name)
  {
    if it.Long? {
      ParseItem(slots, k, it);
    } else {
      ParseDot(slots, k, it);
    }
  }

  lemma ScanErased(slots: seq<Slot>, k: nat, items: seq<Item>, name: seq<byte>)
    requires Holds(slots, k, items) && (items == [] || items[0].Erased?) && name != []
    ensures Scan(slots, k, name) == if AllErased(items) then Miss(k) else Scan(slots, k + Run(items), name)
  {
    ParseRun(slots, k, items, 0);
  }

  /** A cold scan of the slots is a lookup in the map. */
  lemma {:induction false} ScanIsLookup(slots: seq<Slot>, k: nat, items: seq<Item>, name: seq<byte>)
    requires Holds(slots, k, items) && name != [] && name !in {DOT, DOTDOT}
    ensures Scan(slots, k, name) == Lookup(items, k, name)
    decreases |items|
  {
    hide Parse;
    if items != [] && !items[0].Erased? {
      ScanItem(slots, k, items[0], name);
      ScanIsLookup(slots, k + items[0].Len(), items[1..], name);
      LookupItem(items, k, name);
    } else {
      ScanErased(slots, k, items, name);
      SkipRun(slots, k, items, name);
      if !AllErased(items) {
        ScanIsLookup(slots, k + Run(items), items[Run(items)..], name);
      }
    }
  }

  function Lookup(items: seq<Item>, k: nat, name: seq<byte>): Found {
    if name in MapOf(items) then Hit(OffOf(items, k, name), MapOf(items)[name]) else Miss(EndOff(items, k))
  }

  lemma LookupItem(items: seq<Item>, k: nat, name: seq<byte>)
    requires items != [] && !items[0].Erased?
    ensures Lookup(items, k, name) ==
            if items[0].Long? && items[0].name == name then Hit(k, items[0].info)
            else Lookup(items[1..], k + items[0].Len(), name)
  {
  }

  /** Erased items carry no name and only shift offsets. */
  lemma {:induction false} SkipRun(slots: seq<Slot>, k: nat, items: seq<Item>, name: seq<byte>)
    requires Holds(slots, k, items)
    ensures Run(items) <= |items| && Holds(slots, k + Run(items), items[Run(items)..])
    ensures Lookup(items, k, name) == if AllErased(items) then Miss(k)
      else Lookup(items[Run(items)..], k + Run(items), name)
    decreases items
  {
    if items != [] && items[0].Erased? {
      SkipRun(slots, k + 1, items[1..], name);
      assert items[1..][Run(items[1..])..] == items[Run(items)..];
    } else {
      assert items[0..] == items;
    }
  }

  // ---------- Inserting ----------

  function Blank(n: nat): (r: seq<Slot>)
    ensures |r| == n
  {
    seq(n, _ => Zeros(32))
  }

  /** `emake`: write the slots `enc` from slot `k` on; the directory grows by zeroed slots when they do not fit. */
  function Make(slots: seq<Slot>, k: nat, enc: seq<Slot>): (r: seq<Slot>)
    requires k <= |slots|
    ensures |r| == Max(k + |enc|, |slots|)
    ensures forall p :: 0 <= p < |r| ==> r[p] == if k <= p < k + |enc| then enc[p - k] else slots[p]
  {
    slots[..k] + enc + (if k + |enc| < |slots| then slots[k + |enc|..] else [])
  }

  /** The items after putting `it` where the trailing erased run begins. */
  function Inserted(items: seq<Item>, it: Item): seq<Item> {
    if AllErased(items) then [it] + (if it.Len() < |items| then items[it.Len()..] else [])
    else [items[0]] + Inserted(items[1..], it)
  }

  /** The "." (at slot 0) or ".." (at slot 1) entry that `emake` writes. */
  function DotSlot(k: nat, firstClus: nat): (s: Slot)
    requires firstClus < U32
  {
    ShortSlot(if k == 0 then DOT + seq(10, _ => 0x20) else DOTDOT + seq(9, _ => 0x20), Info(0x10, firstClus, 0))
  }

  /** The slots of one item as written to disk. */
  function ItemSlots(it: Item): (r: seq<Slot>)
    requires it.Valid() && !it.Erased?
    ensures |r| == it.Len()
  {
    if it.Long? then Encode(it.name, it.short, it.info) else [it.raw]
  }

  /** The items of a directory stay where slots from `k` on do not change. */
  lemma {:induction false} HoldsFrame(slots: seq<Slot>, slots': seq<Slot>, k: nat, items: seq<Item>)
    requires Holds(slots, k, items) && |slots'| >= |slots|
    requires forall p :: k <= p < |slots| ==> slots'[p] == slots[p]
    requires forall p :: |slots| <= p < |slots'| ==> slots'[p][0] == END_OF_ENTRY
    ensures Holds(slots', k, items)
    decreases items
  {
    if items != [] {
      HoldsFrame(slots, slots', k + items[0].Len(), items[1..]);
    }
  }

  /** Dropping erased items from the front moves on by as many slots. */
  lemma {:induction false} HoldsErased(slots: seq<Slot>, k: nat, items: seq<Item>, n: nat)
    requires Holds(slots, k, items) && AllErased(items)
    ensures n <= |items| ==> Holds(slots, k + n, items[n..]) && AllErased(items[n..])
    ensures n > |items| && k + n <= |slots| ==> Holds(slots, k + n, [])
    decreases items
  {
    if items != [] && n > 0 {
      HoldsErased(slots, k + 1, items[1..], n - 1);
      assert n <= |items| ==> items[1..][n - 1..] == items[n..];
    } else {
      assert items[0..] == items;
    }
  }

  /** An item lies in the slots it is written to. */
  lemma EncodeAt(slots: seq<Slot>, k: nat, it: Item)
    requires it.Valid() && !it.Erased? && k + it.Len() <= |slots|
    requires forall p :: k <= p < k + it.Len() ==> slots[p] == ItemSlots(it)[p - k]
    ensures ItemAt(slots, k, it)
  {
    hide LongSlot, ShortSlot, Checksum, LongSlots;
    if it.Dot? {
      return;
    }
    var n, ck := EntCnt(|it.name|), Checksum(it.short);
    forall p | k <= p < k + n
      ensures slots[p] == LongSlot(it.name, k + n - p, ck)
    {
      LongSlotsAt(it.name, n, ck, p - k);
    }
  }

  lemma {:induction false} LongSlotsAt(name: seq<byte>, i: nat, checksum: byte, j: nat)
    requires j < i <= 19
    ensures LongSlots(name, i, checksum)[j] == LongSlot(name, i - j, checksum)
  {
    if j > 0 {
      LongSlotsAt(name, i - 1, checksum, j - 1);
    }
  }

  /** Writing an encoded entry at the end offset of a scan inserts that item. */
  lemma {:induction false} MakeInserts(slots: seq<Slot>, k: nat, items: seq<Item>, it: Item)
    requires Holds(slots, k, items) && it.Valid() && !it.Erased?
    ensures EndOff(items, k) <= |slots|
    ensures Holds(Make(slots, EndOff(items, k), ItemSlots(it)), k, Inserted(items, it))
    decreases items
  {
    hide ItemSlots, Make, ItemAt, Item.Len, Holds;
    var enc := ItemSlots(it);
    HoldsBound(slots, k, items);
    if AllErased(items) {
      var slots' := Make(slots, k, enc);
      EncodeAt(slots', k, it);
      MakeRest(slots, slots', k, items, it.Len());
      HoldsCons(slots', k, it, if it.Len() < |items| then items[it.Len()..] else []);
    } else {
      HoldsHead(slots, k, items);
      MakeInserts(slots, k + items[0].Len(), items[1..], it);
      EndOffAfter(items[1..], k + items[0].Len());
      var slots' := Make(slots, EndOff(items, k), enc);
      ItemFrame(slots, slots', k, items[0]);
      HoldsCons(slots', k, items[0], Inserted(items[1..], it));
    }
  }

  lemma ItemFrame(slots: seq<Slot>, slots': seq<Slot>, k: nat, it: Item)
    requires ItemAt(slots, k, it) && k + it.Len() <= |slots'|
    requires forall p :: k <= p < k + it.Len() ==> slots'[p] == slots[p]
    ensures ItemAt(slots', k, it)
  {
  }

  lemma {:induction false} HoldsBound(slots: seq<Slot>, k: nat, items: seq<Item>)
    requires Holds(slots, k, items)
    ensures k <= |slots|
    decreases items
  {
    if items != [] {
      HoldsBound(slots, k + items[0].Len(), items[1..]);
    }
  }

  lemma {:induction false} EndOffAfter(items: seq<Item>, k: nat)
    ensures EndOff(items, k) >= k
  {
    if !AllErased(items) {
      EndOffAfter(items[1..], k + items[0].Len());
    }
  }

  lemma MakeRest(slots: seq<Slot>, slots': seq<Slot>, k: nat, items: seq<Item>, n: nat)
    requires Holds(slots, k, items) && AllErased(items) && |slots'| == Max(k + n, |slots|)
    requires forall p :: k + n <= p < |slots'| ==> slots'[p] == slots[p]
    ensures Holds(slots', k + n, if n < |items| then items[n..] else [])
  {
    HoldsErased(slots, k, items, n);
    if n < |items| {
      HoldsBound(slots, k + n, items[n..]);
      HoldsFrame(slots, slots', k + n, items[n..]);
    } else if k + n <= |slots| {
      assert Holds(slots, k + n, []);
    }
  }

  /** Inserting an absent name adds exactly that name to the map. */
  lemma {:induction false} InsertedMap(items: seq<Item>, it: Item)
    requires it.Long? ==> it.name !in MapOf(items)
    requires !it.Erased?
    ensures MapOf(Inserted(items, it)) == if it.Long? then MapOf(items)[it.name := it.info] else MapOf(items)
    ensures Unique(items) ==> Unique(Inserted(items, it))
  {
    var r := Inserted(items, it);
    if AllErased(items) {
      ErasedMap(items);
      if it.Len() < |items| {
        ErasedDrop(items, it.Len());
        ErasedMap(items[it.Len()..]);
      }
      assert r[1..] == if it.Len() < |items| then items[it.Len()..] else [];
    } else {
      InsertedMap(items[1..], it);
      assert r[1..] == Inserted(items[1..], it);
    }
  }

  lemma {:induction false} ErasedMap(items: seq<Item>)
    requires AllErased(items)
    ensures MapOf(items) == map[] && Unique(items)
  {
    if items != [] {
      ErasedMap(items[1..]);
    }
  }

  lemma {:induction false} ErasedDrop(items: seq<Item>, n: nat)
    requires AllErased(items) && n <= |items|
    ensures AllErased(items[n..])
  {
    if n > 0 {
      ErasedDrop(items[1..], n - 1);
      assert items[1..][n - 1..] == items[n..];
    } else {
      assert items[0..] == items;
    }
  }

  // ---------- Erasing and updating ----------

  /** The first byte of an entry, without its last-entry flag, is its number of long slots. */
  lemma EntryCount(slots: seq<Slot>, k: nat, it: Item)
    requires ItemAt(slots, k, it) && it.Long?
    ensures LongCnt(slots[k][0] as nat) == EntCnt(|it.name|)
  {
    hide LongSlot;
    OrderCnt(EntCnt(|it.name|));
    assert slots[k] == LongSlot(it.name, EntCnt(|it.name|), Checksum(it.short));
  }

  /** Slots `k` to `k + n - 1` marked empty. */
  function Erase(slots: seq<Slot>, k: nat, n: nat): (r: seq<Slot>)
    requires k + n <= |slots|
    ensures |r| == |slots|
    ensures forall p :: 0 <= p < |r| ==> r[p] == if k <= p < k + n then slots[p][0 := EMPTY_ENTRY] else slots[p]
    decreases n
  {
    if n == 0 then slots else Erase(slots, k, n - 1)[k + n - 1 := slots[k + n - 1][0 := EMPTY_ENTRY]]
  }

  function Blanks(n: nat): (r: seq<Item>)
    ensures |r| == n
  {
    if n == 0 then [] else [Erased] + Blanks(n - 1)
  }

  /** The items after the first item called `name` is erased. */
  function Removed(items: seq<Item>, name: seq<byte>): seq<Item> {
    if items == [] then []
    else if items[0].Long? && items[0].name == name then Blanks(items[0].Len()) + items[1..]
    else [items[0]] + Removed(items[1..], name)
  }

  lemma {:induction false} HoldsBlanks(slots: seq<Slot>, k: nat, n: nat, rest: seq<Item>)
    requires Holds(slots, k + n, rest) && k + n <= |slots|
    requires forall p :: k <= p < k + n ==> slots[p][0] == EMPTY_ENTRY
    ensures Holds(slots, k, Blanks(n) + rest)
    decreases n
  {
    hide LongTail, ShortSlot;
    if n > 0 {
      HoldsBlanks(slots, k + 1, n - 1, rest);
      assert (Blanks(n) + rest)[1..] == Blanks(n - 1) + rest;
    } else {
      assert Blanks(n) + rest == rest;
    }
  }

  /** Where an entry lies, and that it fits. */
  lemma {:induction false} OffOfAt(slots: seq<Slot>, k: nat, items: seq<Item>, name: seq<byte>)
    requires Holds(slots, k, items) && name in MapOf(items)
    ensures OffOf(items, k, name) >= k && OffOf(items, k, name) + EntCnt(|name|) + 1 <= |slots|
    ensures exists short :: ItemAt(slots, OffOf(items, k, name), Long(name, short, MapOf(items)[name]))
    decreases items
  {
    hide ItemAt;
    if items[0].Long? && items[0].name == name {
      assert ItemAt(slots, k, Long(name, items[0].short, items[0].info));
      HoldsBound(slots, k + items[0].Len(), items[1..]);
    } else {
      OffOfAt(slots, k + items[0].Len(), items[1..], name);
    }
  }

  /** Marking the slots of an entry empty removes exactly that item. */
  lemma {:induction false} EraseRemoves(slots: seq<Slot>, k: nat, items: seq<Item>, name: seq<byte>)
    requires Holds(slots, k, items) && name in MapOf(items)
    requires OffOf(items, k, name) + EntCnt(|name|) + 1 <= |slots|
    ensures Holds(Erase(slots, OffOf(items, k, name), EntCnt(|name|) + 1), k, Removed(items, name))
    decreases items
  {
    hide Erase, ItemAt, EntCnt, Item.Valid, Holds;
    var off, n := OffOf(items, k, name), EntCnt(|name|) + 1;
    var slots' := Erase(slots, off, n);
    HoldsHead(slots, k, items);
    if items[0].Long? && items[0].name == name {
      HoldsFrame(slots, slots', k + n, items[1..]);
      HoldsBlanks(slots', k, n, items[1..]);
    } else {
      OffOfAt(slots, k + items[0].Len(), items[1..], name);
      EraseRemoves(slots, k + items[0].Len(), items[1..], name);
      ItemFrame(slots, slots', k, items[0]);
      HoldsCons(slots', k, items[0], Removed(items[1..], name));
    }
  }

  lemma HoldsHead(slots: seq<Slot>, k: nat, items: seq<Item>)
    requires Holds(slots, k, items) && items != []
    ensures ItemAt(slots, k, items[0]) && Holds(slots, k + items[0].Len(), items[1..]) && k + items[0].Len() <= |slots|
  {
  }

  lemma HoldsCons(slots: seq<Slot>, k: nat, it: Item, rest: seq<Item>)
    requires ItemAt(slots, k, it) && Holds(slots, k + it.Len(), rest)
    ensures Holds(slots, k, [it] + rest)
  {
    assert ([it] + rest)[1..] == rest;
  }

  lemma {:induction false} RemovedMap(items: seq<Item>, name: seq<byte>)
    requires Unique(items) && name in MapOf(items)
    ensures MapOf(Removed(items, name)) == MapOf(items) - {name} && Unique(Removed(items, name))
  {
    if items[0].Long? && items[0].name == name {
      BlanksMap(items[0].Len(), items[1..]);
    } else {
      RemovedMap(items[1..], name);
      assert Removed(items, name)[1..] == Removed(items[1..], name);
    }
  }

  lemma {:induction false} BlanksMap(n: nat, rest: seq<Item>)
    ensures MapOf(Blanks(n) + rest) == MapOf(rest) && Unique(Blanks(n) + rest) == Unique(rest)
  {
    if n > 0 {
      BlanksMap(n - 1, rest);
      assert (Blanks(n) + rest)[1..] == Blanks(n - 1) + rest;
    } else {
      assert Blanks(n) + rest == rest;
    }
  }

  /** `eupdate` on one slot: store first cluster and size, keep everything else. */
  function Patch(s: Slot, firstClus: nat, fileSize: nat): (r: Slot)
    requires firstClus < U32 && fileSize < U32
  {
    Overwrite(Overwrite(Overwrite(s, 20, Enc16(firstClus / 65536)), 26, Enc16(firstClus % 65536)), 28, Enc32(fileSize))
  }

  lemma PatchShort(short: seq<byte>, info: Info, firstClus: nat, fileSize: nat)
    requires |short| == CHAR_SHORT_NAME && info.Valid() && firstClus < U32 && fileSize < U32
    ensures Patch(ShortSlot(short, info), firstClus, fileSize) == ShortSlot(short, Info(info.attr, firstClus, fileSize))
  {
  }

  /** The items after the first item called `name` gets a new first cluster and size. */
  function Updated(items: seq<Item>, name: seq<byte>, firstClus: nat, fileSize: nat): seq<Item> {
    if items == [] then []
    else if items[0].Long? && items[0].name == name then
      [Long(name, items[0].short, Info(items[0].info.attr, firstClus, fileSize))] + items[1..]
    else [items[0]] + Updated(items[1..], name, firstClus, fileSize)
  }

  lemma PatchItem(slots: seq<Slot>, k: nat, it: Item, firstClus: nat, fileSize: nat)
    requires ItemAt(slots, k, it) && it.Long? && firstClus < U32 && fileSize < U32
    ensures var p := k + EntCnt(|it.name|);
      ItemAt(slots[p := Patch(slots[p], firstClus, fileSize)], k, it.(info := Info(it.info.attr, firstClus, fileSize)))
  {
    hide Patch, ShortSlot, LongSlot, Checksum;
    PatchShort(it.short, it.info, firstClus, fileSize);
  }

  /** Patching the short slot of an entry updates exactly that item. */
  lemma {:induction false} PatchUpdates(slots: seq<Slot>, k: nat, items: seq<Item>, name: seq<byte>, firstClus: nat,
                                        fileSize: nat)
    requires Holds(slots, k, items) && name in MapOf(items) && firstClus < U32 && fileSize < U32
    requires OffOf(items, k, name) + EntCnt(|name|) < |slots|
    ensures var p := OffOf(items, k, name) + EntCnt(|name|);
      Holds(slots[p := Patch(slots[p], firstClus, fileSize)], k, Updated(items, name, firstClus, fileSize))
    decreases items
  {
    hide Patch, ItemAt;
    var p := OffOf(items, k, name) + EntCnt(|name|);
    var slots', r := slots[p := Patch(slots[p], firstClus, fileSize)], Updated(items, name, firstClus, fileSize);
    if items[0].Long? && items[0].name == name {
      PatchItem(slots, k, items[0], firstClus, fileSize);
      HoldsFrame(slots, slots', p + 1, items[1..]);
      assert r[1..] == items[1..];
    } else {
      OffOfAt(slots, k + items[0].Len(), items[1..], name);
      PatchUpdates(slots, k + items[0].Len(), items[1..], name, firstClus, fileSize);
      ItemFrame(slots, slots', k, items[0]);
      assert r[1..] == Updated(items[1..], name, firstClus, fileSize);
    }
  }

  lemma {:induction false} UpdatedMap(items: seq<Item>, name: seq<byte>, firstClus: nat, fileSize: nat)
    requires name in MapOf(items)
    ensures MapOf(Updated(items, name, firstClus, fileSize))
         == MapOf(items)[name := Info(MapOf(items)[name].attr, firstClus, fileSize)]
    ensures Unique(items) ==> Unique(Updated(items, name, firstClus, fileSize))
  {
    var r := Updated(items, name, firstClus, fileSize);
    if items[0].Long? && items[0].name == name {
      assert r[1..] == items[1..];
    } else {
      UpdatedMap(items[1..], name, firstClus, fileSize);
      assert r[1..] == Updated(items[1..], name, firstClus, fileSize);
    }
  }

  // ---------- What scans see ----------

  /** `slots` is a directory that this code could have written. */
  ghost predicate DirOk(slots: seq<Slot>) {
    exists items :: Holds(slots, 0, items) && Unique(items)
  }

  /** Names that `dirlookup` looks for in the slots. */
  predicate Searchable(name: seq<byte>) { name != [] && name !in {DOT, DOTDOT} }

  /** Two scans agree on whether and where a name is found, and on what is found. */
  predicate SameHit(a: Found, b: Found) { a == b || (a.Miss? && b.Miss?) }

  /** Every name but `name` is found in `slots'` as it is in `slots`. */
  ghost predicate OthersSame(slots: seq<Slot>, slots': seq<Slot>, name: seq<byte>) {
    forall n {:trigger Scan(slots', 0, n)} ::
      Searchable(n) && n != name ==> SameHit(Scan(slots', 0, n), Scan(slots, 0, n))
  }

  lemma {:induction false} HoldsPad(slots: seq<Slot>, k: nat, items: seq<Item>, pad: nat)
    requires Holds(slots, k, items)
    ensures Holds(slots + Blank(pad), k, items)
  {
    HoldsFrame(slots, slots + Blank(pad), k, items);
  }

  lemma {:induction false} InsertedOff(items: seq<Item>, k: nat, it: Item, n: seq<byte>)
    requires !it.Erased? && (it.Long? ==> it.name !in MapOf(items)) && n in MapOf(items)
    ensures n in MapOf(Inserted(items, it)) && OffOf(Inserted(items, it), k, n) == OffOf(items, k, n)
  {
    InsertedMap(items, it);
    if AllErased(items) {
      ErasedMap(items);
    } else if !(items[0].Long? && items[0].name == n) {
      InsertedOff(items[1..], k + items[0].Len(), it, n);
      assert Inserted(items, it)[1..] == Inserted(items[1..], it);
    }
  }

  lemma {:induction false} InsertedNew(items: seq<Item>, k: nat, it: Item)
    requires it.Long? && it.name !in MapOf(items)
    ensures it.name in MapOf(Inserted(items, it)) && OffOf(Inserted(items, it), k, it.name) == EndOff(items, k)
  {
    InsertedMap(items, it);
    if !AllErased(items) {
      InsertedNew(items[1..], k + items[0].Len(), it);
      assert Inserted(items, it)[1..] == Inserted(items[1..], it);
    }
  }

  lemma {:induction false} BlanksOff(k: nat, m: nat, rest: seq<Item>, n: seq<byte>)
    requires n in MapOf(rest)
    ensures n in MapOf(Blanks(m) + rest) && OffOf(Blanks(m) + rest, k, n) == OffOf(rest, k + m, n)
    decreases m
  {
    BlanksMap(m, rest);
    if m > 0 {
      BlanksOff(k + 1, m - 1, rest, n);
      assert (Blanks(m) + rest)[1..] == Blanks(m - 1) + rest;
    } else {
      assert Blanks(m) + rest == rest;
    }
  }

  lemma {:induction false} RemovedOff(items: seq<Item>, k: nat, name: seq<byte>, n: seq<byte>)
    requires Unique(items) && name in MapOf(items) && n in MapOf(items) && n != name
    ensures n in MapOf(Removed(items, name)) && OffOf(Removed(items, name), k, n) == OffOf(items, k, n)
  {
    RemovedMap(items, name);
    if items[0].Long? && items[0].name == name {
      BlanksOff(k, items[0].Len(), items[1..], n);
    } else if !(items[0].Long? && items[0].name == n) {
      RemovedOff(items[1..], k + items[0].Len(), name, n);
      assert Removed(items, name)[1..] == Removed(items[1..], name);
    }
  }

  lemma {:induction false} UpdatedOff(items: seq<Item>, k: nat, name: seq<byte>, firstClus: nat, fileSize: nat,
                                      n: seq<byte>)
    requires name in MapOf(items) && n in MapOf(items)
    ensures n in MapOf(Updated(items, name, firstClus, fileSize))
    ensures OffOf(Updated(items, name, firstClus, fileSize), k, n) == OffOf(items, k, n)
  {
    UpdatedMap(items, name, firstClus, fileSize);
    var r := Updated(items, name, firstClus, fileSize);
    if items[0].Long? && items[0].name == name {
      assert r[1..] == items[1..];
    } else if !(items[0].Long? && items[0].name == n) {
      UpdatedOff(items[1..], k + items[0].Len(), name, firstClus, fileSize, n);
      assert r[1..] == Updated(items[1..], name, firstClus, fileSize);
    }
  }

  /** Directories whose maps agree away from `name`, and whose offsets agree, look the same to other scans. */
  lemma SameScans(slots: seq<Slot>, items: seq<Item>, slots': seq<Slot>, items': seq<Item>, name: seq<byte>)
    requires Holds(slots, 0, items) && Holds(slots', 0, items')
    requires forall n :: n != name ==>
      && (n in MapOf(items') <==> n in MapOf(items))
      && (n in MapOf(items) ==> MapOf(items')[n] == MapOf(items)[n] && OffOf(items', 0, n) == OffOf(items, 0, n))
    ensures OthersSame(slots, slots', name)
  {
    hide Scan, Holds;
    forall n | Searchable(n) && n != name
      ensures SameHit(Scan(slots', 0, n), Scan(slots, 0, n))
    {
      ScanIsLookup(slots, 0, items, n);
      ScanIsLookup(slots', 0, items', n);
    }
  }

  /** Making an entry where a scan for its name gave up: the name is found there, other names as before. */
  lemma MakeTheorem(slots: seq<Slot>, name: seq<byte>, short: seq<byte>, info: Info, pad: nat)
    requires DirOk(slots) && Long(name, short, info).Valid() && Scan(slots, 0, name).Miss?
    ensures var k := Scan(slots, 0, name).off;
      && k <= |slots|
      && var slots' := Make(slots, k, Encode(name, short, info)) + Blank(pad);
         DirOk(slots') && Scan(slots', 0, name) == Hit(k, info) && OthersSame(slots, slots', name)
  {
    hide Scan, Holds, Make, Encode;
    var items :| Holds(slots, 0, items) && Unique(items);
    var it := Long(name, short, info);
    ScanIsLookup(slots, 0, items, name);
    MakeInserts(slots, 0, items, it);
    InsertedMap(items, it);
    InsertedNew(items, 0, it);
    var k, items' := EndOff(items, 0), Inserted(items, it);
    assert ItemSlots(it) == Encode(name, short, info);
    var slots' := Make(slots, k, Encode(name, short, info)) + Blank(pad);
    HoldsPad(Make(slots, k, Encode(name, short, info)), 0, items', pad);
    ScanIsLookup(slots', 0, items', name);
    forall n | n in MapOf(items)
      ensures n in MapOf(items') && OffOf(items', 0, n) == OffOf(items, 0, n)
    {
      InsertedOff(items, 0, it, n);
    }
    SameScans(slots, items, slots', items', name);
  }

  /** Erasing the entry a scan found: the name is gone, other names are as before. */
  lemma RemoveTheorem(slots: seq<Slot>, name: seq<byte>)
    requires DirOk(slots) && Searchable(name) && Scan(slots, 0, name).Hit?
    ensures var k := Scan(slots, 0, name).off;
      && k < |slots| && LongCnt(slots[k][0] as nat) == EntCnt(|name|) && k + EntCnt(|name|) < |slots|
      && var slots' := Erase(slots, k, EntCnt(|name|) + 1);
         DirOk(slots') && Scan(slots', 0, name).Miss? && OthersSame(slots, slots', name)
  {
    hide Scan, Holds, Erase;
    var items :| Holds(slots, 0, items) && Unique(items);
    ScanIsLookup(slots, 0, items, name);
    EntryAt(slots, items, name);
    EraseRemoves(slots, 0, items, name);
    RemovedMap(items, name);
    var slots', items' := Erase(slots, OffOf(items, 0, name), EntCnt(|name|) + 1), Removed(items, name);
    ScanIsLookup(slots', 0, items', name);
    forall n | n in MapOf(items) && n != name
      ensures n in MapOf(items') && OffOf(items', 0, n) == OffOf(items, 0, n)
    {
      RemovedOff(items, 0, name, n);
    }
    SameScans(slots, items, slots', items', name);
  }

  lemma EntryAt(slots: seq<Slot>, items: seq<Item>, name: seq<byte>)
    requires Holds(slots, 0, items) && name in MapOf(items)
    ensures var k := OffOf(items, 0, name);
      k < |slots| && LongCnt(slots[k][0] as nat) == EntCnt(|name|) && k + EntCnt(|name|) < |slots|
  {
    hide ItemAt;
    OffOfAt(slots, 0, items, name);
    var short :| ItemAt(slots, OffOf(items, 0, name), Long(name, short, MapOf(items)[name]));
    EntryCount(slots, OffOf(items, 0, name), Long(name, short, MapOf(items)[name]));
  }

  /** Updating the entry a scan found: it shows the new cluster and size, other names are as before. */
  lemma UpdateTheorem(slots: seq<Slot>, name: seq<byte>, firstClus: nat, fileSize: nat)
    requires DirOk(slots) && Searchable(name) && Scan(slots, 0, name).Hit? && firstClus < U32 && fileSize < U32
    ensures var Hit(k, info) := Scan(slots, 0, name);
      && k < |slots| && LongCnt(slots[k][0] as nat) == EntCnt(|name|) && k + EntCnt(|name|) < |slots|
      && var p := k + EntCnt(|name|);
         var slots' := slots[p := Patch(slots[p], firstClus, fileSize)];
         && DirOk(slots') && Scan(slots', 0, name) == Hit(k, Info(info.attr, firstClus, fileSize))
         && OthersSame(slots, slots', name)
  {
    hide Scan, Holds, Patch;
    var items :| Holds(slots, 0, items) && Unique(items);
    ScanIsLookup(slots, 0, items, name);
    EntryAt(slots, items, name);
    PatchUpdates(slots, 0, items, name, firstClus, fileSize);
    UpdatedMap(items, name, firstClus, fileSize);
    var p, items' := OffOf(items, 0, name) + EntCnt(|name|), Updated(items, name, firstClus, fileSize);
    var slots' := slots[p := Patch(slots[p], firstClus, fileSize)];
    ScanIsLookup(slots', 0, items', name);
    forall n | n in MapOf(items)
      ensures n in MapOf(items') && OffOf(items', 0, n) == OffOf(items, 0, n)
    {
      UpdatedOff(items, 0, name, firstClus, fileSize, n);
    }
    SameScans(slots, items, slots', items', name);
  }

  /**
   `emake` at slot 0 or 1 writes "." or ".." instead of the entry asked for, so the name is still not
   found; the slots stay a directory and no other name changes.
   */
  lemma DotTheorem(slots: seq<Slot>, name: seq<byte>, firstClus: nat, pad: nat)
    requires DirOk(slots) && Searchable(name) && Scan(slots, 0, name).Miss? && Scan(slots, 0, name).off < 2
      && firstClus < U32
    ensures var k := Scan(slots, 0, name).off;
      && k <= |slots|
      && var slots' := Make(slots, k, [DotSlot(k, firstClus)]) + Blank(pad);
         DirOk(slots') && Scan(slots', 0, name).Miss? && OthersSame(slots, slots', name)
  {
    hide Scan, Holds, Make, DotSlot;
    var items :| Holds(slots, 0, items) && Unique(items);
    ScanIsLookup(slots, 0, items, name);
    var k := EndOff(items, 0);
    var it := Dot(DotSlot(k, firstClus));
    DotName(k, firstClus);
    MakeInserts(slots, 0, items, it);
    InsertedMap(items, it);
    var items' := Inserted(items, it);
    assert ItemSlots(it) == [DotSlot(k, firstClus)];
    var slots' := Make(slots, k, [DotSlot(k, firstClus)]) + Blank(pad);
    HoldsPad(Make(slots, k, [DotSlot(k, firstClus)]), 0, items', pad);
    ScanIsLookup(slots', 0, items', name);
    forall n | n in MapOf(items)
      ensures n in MapOf(items') && OffOf(items', 0, n) == OffOf(items, 0, n)
    {
      InsertedOff(items, 0, it, n);
    }
    SameScans(slots, items, slots', items', name);
  }

  /** What `emake` writes for an entry at slot `k`. */
  function Made(slots: seq<Slot>, k: nat, name: seq<byte>, short: seq<byte>, info: Info): seq<Slot>
    requires k <= |slots| && NameOk(name) && ShortOk(short) && info.Valid()
  {
    if k < 2 then Make(slots, k, [DotSlot(k, info.firstClus)]) else Make(slots, k, Encode(name, short, info))
  }

  /** Making a name where the scan gave up works exactly when that is not one of the first two slots. */
  lemma MadeExactly(slots: seq<Slot>, name: seq<byte>, short: seq<byte>, info: Info, pad: nat)
    requires DirOk(slots) && Long(name, short, info).Valid() && Scan(slots, 0, name).Miss?
    ensures var k := Scan(slots, 0, name).off;
      && k <= |slots|
      && var slots' := Made(slots, k, name, short, info) + Blank(pad);
         && DirOk(slots') && OthersSame(slots, slots', name)
         && (Scan(slots', 0, name) == Hit(k, info) <==> k >= 2)
         && (Scan(slots', 0, name).Miss? <==> k < 2)
  {
    hide Scan, Make, Encode, DotSlot, DirOk, OthersSame;
    MakeTheorem(slots, name, short, info, pad);
    if Scan(slots, 0, name).off < 2 {
      DotTheorem(slots, name, info.firstClus, pad);
    }
  }

  lemma {:induction false} DotsAlone(dots: seq<Item>, k: nat)
    requires forall i {:trigger dots[i]} :: 0 <= i < |dots| ==> dots[i].Dot?
    ensures MapOf(dots) == map[] && EndOff(dots, k) == k + |dots| && Unique(dots)
  {
    if dots != [] {
      DotsAlone(dots[1..], k + 1);
      assert dots[0].Dot?;
    }
  }

  /** In a directory that holds the entries `dots` and nothing else, every scan ends behind them. */
  lemma OnlyDots(slots: seq<Slot>, dots: seq<Item>, name: seq<byte>)
    requires Holds(slots, 0, dots) && Searchable(name)
    requires forall i {:trigger dots[i]} :: 0 <= i < |dots| ==> dots[i].Dot?
    ensures DirOk(slots) && Scan(slots, 0, name) == Miss(|dots|) && |dots| <= |slots|
  {
    hide Holds, Scan, ItemSlots, Item.Valid, Make, DotSlot;
    ScanIsLookup(slots, 0, dots, name);
    DotsAlone(dots, 0);
    DotName(0, 0);
    MakeInserts(slots, 0, dots, Dot(DotSlot(0, 0)));
  }

  lemma {:induction false} InsertedDot(dots: seq<Item>, it: Item)
    requires forall i {:trigger dots[i]} :: 0 <= i < |dots| ==> dots[i].Dot?
    ensures Inserted(dots, it) == dots + [it]
  {
    if dots != [] {
      InsertedDot(dots[1..], it);
      assert dots[0].Dot?;
      assert dots == [dots[0]] + dots[1..];
    }
  }

  /** A name and what is made of it. */
  predicate Makeable(name: seq<byte>, short: seq<byte>, info: Info) {
    NameOk(name) && Searchable(name) && ShortOk(short) && info.Valid()
  }

  lemma InsertDot(slots: seq<Slot>, dots: seq<Item>, k: nat, firstClus: nat)
    requires Holds(slots, 0, dots) && k == |dots| <= |slots| && firstClus < U32
    requires forall i {:trigger dots[i]} :: 0 <= i < |dots| ==> dots[i].Dot?
    ensures Holds(Make(slots, k, [DotSlot(k, firstClus)]), 0, dots + [Dot(DotSlot(k, firstClus))])
  {
    DotName(k, firstClus);
    OneSlot(DotSlot(k, firstClus));
    DotsAlone(dots, 0);
    hide *;
    var it := Dot(DotSlot(k, firstClus));
    InsertedDot(dots, it);
    MakeInserts(slots, 0, dots, it);
  }

  /** Making a name behind fewer than two dot entries makes one more of them. */
  lemma MadeDot(slots: seq<Slot>, dots: seq<Item>, name: seq<byte>, short: seq<byte>, info: Info)
    requires Holds(slots, 0, dots) && |dots| < 2 && Makeable(name, short, info)
    requires forall i {:trigger dots[i]} :: 0 <= i < |dots| ==> dots[i].Dot?
    ensures Scan(slots, 0, name) == Miss(|dots|) && |dots| <= |slots|
    ensures Holds(Made(slots, |dots|, name, short, info), 0, dots + [Dot(DotSlot(|dots|, info.firstClus))])
  {
    hide Holds, DotSlot, Make, Encode, Scan, DirOk, NameOk, ShortOk, Searchable;
    OnlyDots(slots, dots, name);
    InsertDot(slots, dots, |dots|, info.firstClus);
  }

  lemma OneSlot(s: Slot)
    requires Dot(s).Valid()
    ensures ItemSlots(Dot(s)) == [s]
  {
  }

  /** In a root directory without entries the first two names that are made are lost; the third is made. */
  lemma FirstTwoLost(n: nat, a: seq<byte>, b: seq<byte>, c: seq<byte>, short: seq<byte>, info: Info)
    requires Makeable(a, short, info) && Makeable(b, short, info) && Makeable(c, short, info)
    ensures DirOk(Blank(n)) && Scan(Blank(n), 0, a) == Miss(0)
    ensures var one := Made(Blank(n), 0, a, short, info);
      && Scan(one, 0, a).Miss? && Scan(one, 0, b) == Miss(1) && |one| >= 1
      && var two := Made(one, 1, b, short, info);
         && Scan(two, 0, a).Miss? && Scan(two, 0, b).Miss? && Scan(two, 0, c) == Miss(2) && |two| >= 2
         && Scan(Made(two, 2, c, short, info), 0, c) == Hit(2, info)
  {
    assert Holds(Blank(n), 0, []);
    assert Long(c, short, info).Valid();
    hide Scan, Made, DotSlot, Holds, Item.Valid, DirOk, OthersSame, Blank;
    OnlyDots(Blank(n), [], a);
    MadeDot(Blank(n), [], a, short, info);
    var one, dot := Made(Blank(n), 0, a, short, info), Dot(DotSlot(0, info.firstClus));
    assert [] + [dot] == [dot];
    OnlyDots(one, [dot], a);
    MadeDot(one, [dot], b, short, info);
    var two, dots := Made(one, 1, b, short, info), [dot] + [Dot(DotSlot(1, info.firstClus))];
    OnlyDots(two, dots, a);
    OnlyDots(two, dots, b);
    OnlyDots(two, dots, c);
    MadeExactly(two, c, short, info, 0);
    NoPad(Made(two, 2, c, short, info));
  }

  lemma NoPad(slots: seq<Slot>)
    ensures slots + Blank(0) == slots
  {
  }

  lemma DotName(k: nat, firstClus: nat)
    requires firstClus < U32
    ensures Dot(DotSlot(k, firstClus)).Valid()
    ensures ReadShortName(DotSlot(k, firstClus)) == if k == 0 then [46] else [46, 46]
    ensures SlotInfo(DotSlot(k, firstClus)) == Info(16, firstClus, 0)
  {
    var s := DotSlot(k, firstClus);
    var base := if k == 0 then DOT else DOTDOT;
    assert s[..11] == base + seq(11 - |base|, _ => 0x20);
    assert forall i :: 0 <= i < 11 ==> s[i] == s[..11][i];
    SpacePadded(base, s[0..8]);
    assert SlotInfo(s) == Info(0x10, firstClus, 0);
    assert s[8..11][0] == 0x20;
    assert UpToSpace(s[8..11]) == [];
    assert UpToSpace(s[0..8]) + [] + [] == base;
    CStrAll(base);
  }

  lemma {:induction false} SpacePadded(base: seq<byte>, b: seq<byte>)
    requires |base| < |b| && b[..|base|] == base && b[|base|] == 0x20
    requires forall i :: 0 <= i < |base| ==> base[i] != 0x20
    ensures UpToSpace(b) == base
  {
    if base != [] {
      assert b[0] == b[..|base|][0];
      assert b[1..][..|base| - 1] == b[..|base|][1..];
      SpacePadded(base[1..], b[1..]);
    }
  }

  lemma {:induction false} CStrAll(b: seq<byte>)
    requires forall i :: 0 <= i < |b| ==> b[i] != 0
    ensures CStr(b) == b
  {
    if b != [] {
      CStrAll(b[1..]);
    }
  }
}
