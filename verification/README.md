# Verified model of the K210 kernel's storage and serial paths

A Dafny model of the parts of an xv6-style kernel for the K210 board in which correctness rests on
unstated invariants, with proofs that hold for every input and every run:

* the FAT32 layer (`kernel/fs/fat32.c`) from the blocks of the volume up to path lookup through the entry
  cache, and the open-file calls above it (`kernel/fs/file.c`);
* the buffer cache (`kernel/fs/bio.c`), one call at a time and with many processors;
* the virtio disk driver (`kernel/driver/virtio_disk.c`) with its device and interrupt handler;
* the UART receive path (`kernel/driver/uart.c`) and its byte ring (`kernel/driver/ringbuffer.c`);
* the host's image transfer and image trimming (`tools/burn.py`) and SLIP framing (`tools/kflash.py`).

`dafny verify dfyconfig.toml` checks everything.

## How the pieces fit

| file | what it holds |
|---|---|
| `Bytes.dfy` | little-endian words, splicing, division without nonlinear arithmetic, lists of distinct numbers |
| `Fat32Layout.dfy`, `Fat32Chain.dfy`, `Fat32.dfy` | blocks as FAT words and clusters; chains, owners and contents; the class `FileSystem` with the FAT32 file operations |
| `DirCodec.dfy`, `DirModel.dfy`, `DirBytes.dfy`, `Directory.dfy` | the 32-byte slots of long and short names; what slots mean as a map; the same slots byte by byte in numbers; the operations on directories stored in `FileSystem` |
| `EntryState.dfy`, `EntryDisk.dfy`, `EntryCreate.dfy`, `EntryPath.dfy` | the state of the entry cache, its invariant, single steps, and what paths mean |
| `EntryCache.dfy`, `EntryOps.dfy`, `EntryLookup.dfy` | the class `Cache` with the cache operations, creation and removal, and path lookup |
| `Mount.dfy`, `Volume.dfy` | the entry cache on the volume: its directories are the ones stored in `FileSystem`; the whole volume, with every name and every chain |
| `FileApi.dfy` | open files |
| `BufRing.dfy`, `BufferCache.dfy`, `BufferSteps.dfy`, `BufferRace.dfy`, `BufferDisk.dfy` | bucket rings; the class `Bcache`; the interleaved steps; two buffers for one block; the disk behind them |
| `Virtio.dfy`, `VirtioSteps.dfy`, `VirtioDraft.dfy` | descriptor allocation; the protocol; submission write by write |
| `RingBuffer.dfy`, `Uart.dfy` | the byte ring; the receive path |
| `Burn.dfy`, `FatTrim.dfy`, `Slip.dfy` | the host tools |

The central ideas:

* A file is its chain's clusters put end to end and cut to its size (`Fat32Chain.Content`). `EWrite` is a
  splice, `ERead` a slice, and every other entry keeps its bytes. Ownership of clusters (`FsInv`) makes
  chains disjoint and accounts for every nonzero FAT entry.
* A directory is a list of items in slots and through it a map from names to information; a cold scan
  (`DirModel.Scan`) is a lookup in that map, and making, updating and erasing slots are its operations.
* The entry cache is sound because an unreferenced child always lies nearer the tail of the list than its
  unreferenced parent, so a slot that is recycled is nobody's parent. From this the invariant `EntryDisk.Inv`
  derives that a hit on parent and name is what a fresh scan of the directory would return. `LookupPath`
  returns what following the path on the disk alone leads to.
* `Mount` puts cache and volume together: the directories that the cache is about are the slots in the chains of
  `FileSystem`, every operation that touches the disk is run there, and the two stay in step. `Volume` extends
  this to all files: an entry of `FileSystem` stands for each directory, each name and each removed open file,
  whether the cache holds it or not, so one invariant says that the volume is consistent.
* In the protocols every step of every participant keeps one invariant, and the promises follow for every
  state of every run.

Where the code and its comments differ, the code is followed. In particular `dirlookup`
(`kernel/fs/fat32.c:859`) assigns the comparison `enext(...) != -1` to `type`, so free slots in the middle of
a directory are never reused: the offset it hands back is the end of the directory or the start of its
trailing run of erased slots. And `emake` at offset 0 or 32 writes "." or ".." whatever entry was asked for.

Results about behaviour that is not as one would wish, each with the condition under which the code does what it
should and a concrete input on which it does not:

* `DirModel.MadeExactly`, `FirstTwoLost`: creating a name works exactly when it does not fall into the first two
  slots of its directory; in an empty root the first two names do.
* `BufferSteps.UniqueLive`, `BufferRace.OverlapDuplicates`, `HuntPanics`, `RaceDuplicates`: a block has one live
  buffer in every run in which no two processors are between lines 126 and 150 of `kernel/fs/bio.c` for it; from
  every state in which two are, and in which each that still needs a buffer can reach one of its own, the block gets
  two. The two halves are apart by the condition `Enough` and by other processors that are inside a critical
  section; a processor that has no buffer left within reach ends in the panic.
* `Burn.LeftoverExactly`, `LeftoverExample`: the host can report success with a sector missing exactly when an
  acknowledgement of sector 0 is left over from the handshake and the rest does not make it give up.
* `FatTrim.TrimExactly`, `WholeImage`, `CutImageLosesFile`: trimming loses data exactly when the image ends inside a
  cluster in use, by whole sectors or not, since `tools/burn.py:152-161` drops the cluster and the kernel counts it.

## Model

| member | source | states |
|---|---|---|
| Fat32Layout.FromBpbExactly | kernel/fs/fat32.c:80-92 | in 32-bit arithmetic, FAT and data clusters lie inside the volume and every cluster has a FAT entry exactly when the data area begins behind the first FAT and inside the volume and the FAT is long enough; then less than a cluster is wasted |
| Fat32Layout.SectorOwner | kernel/fs/fat32.c:150-153 | no two clusters share a sector |
| Fat32Layout.StoreFat | kernel/fs/fat32.c:160-211 | writing one word of a FAT sector changes exactly that FAT entry and no cluster |
| Fat32Layout.StoreSector | kernel/fs/fat32.c:253-285 | writing part of a data sector changes exactly those bytes of its cluster and no FAT entry |
| Fat32Layout.FatBytes | kernel/fs/fat32.c:160-176 | entry c of the FAT is four bytes, the lowest first, from byte 4 c of the FAT area on |
| Fat32Layout.ClusterBytes | kernel/fs/fat32.c:150-153 | byte i of cluster c is byte i mod 512 of sector i / 512 of the cluster; cluster 2 is the first of the data area |
| Fat32.FileSystem.constructor | kernel/fs/fat32.c:72-128 | well-formed chains without a common cluster are a sound state of a volume |
| Fat32.FileSystem.ReadFat | kernel/fs/fat32.c:178-192 | the FAT entry; the end mark is returned as it is and an out-of-range cluster reads as 0 |
| Fat32.FileSystem.WriteFat | kernel/fs/fat32.c:199-211 | exactly that entry changes, or nothing when the cluster is out of range |
| Fat32.FileSystem.ZeroClus | kernel/fs/fat32.c:213-223 | exactly that cluster becomes zero |
| Fat32.FileSystem.AllocClus | kernel/fs/fat32.c:225-246 | a cluster is found exactly when one in range is free, and the lowest one becomes a zeroed chain end, marked by the word 268435455; otherwise nothing changed, and the first zero word of the FAT area behind the last cluster, or its end, is named |
| Fat32.FileSystem.FreeClus | kernel/fs/fat32.c:248-251 | exactly that entry becomes free |
| Fat32.FileSystem.ReadClus | kernel/fs/fat32.c:253-285 | the requested bytes of the cluster, across its sectors |
| Fat32.FileSystem.WriteClus | kernel/fs/fat32.c:253-285 | exactly the requested bytes of the cluster change |
| Fat32.FileSystem.RelocClus | kernel/fs/fat32.c:291-321 | from any cursor, forward or back, the cursor ends at cluster off / size of the possibly extended chain and the result is off mod size; -1 exactly when the chain is too short and nothing may be allocated |
| Fat32.FileSystem.RelocStart | kernel/fs/fat32.c:291-321 | reloc_clus(entry, 0, 0) puts a cursor right that is stale because the disk was replaced |
| Fat32.FileSystem.Remount | kernel/fs/fat32.c:130-145 | the root entry kept by fat32_invalidate with any cursor is sound on the new disk after the first reloc_clus of a scan (line 858) |
| Fat32.FileSystem.ERead | kernel/fs/fat32.c:325-347 | the slice of the file, empty for a directory, past the end or when off + n wraps; nothing but the cursor changes |
| Fat32.FileSystem.EWrite | kernel/fs/fat32.c:349-378 | the file becomes the old one with the data spliced in at off, all other entries keep bytes and chains, and the entry is marked exactly when its size or first cluster changed; refused past the end, on wrap-around and for read-only files; it runs out exactly when the clusters needed exceed those free |
| Fat32.FileSystem.ETrunc | kernel/fs/fat32.c:654-664 | the file is empty, exactly its clusters are free again, no other entry changes |
| Fat32.FileSystem.ReadEntryInfo | kernel/fs/fat32.c:764-772 | an entry for a file on the volume that no other entry has, or for an empty one (and the root, lines 109-114): its bytes are those of its chain, and all others keep theirs |
| Fat32.FileSystem.Forget | kernel/fs/fat32.c:402-412 | a recycled entry leaves its chain on the volume to be read again, and all others keep their bytes |
| Fat32.FileSystem.ClearLinks | kernel/fs/fat32.c:654-664 | the loop of etrunc ends on every FAT content and does what the specification `Cleared` says |
| Fat32Chain.ClearedChain | kernel/fs/fat32.c:654-664 | on a well-formed chain exactly the entries of the chain are cleared |
| Fat32Chain.ChainAcyclic | kernel/fs/fat32.c:291-321 | a chain never visits a cluster twice |
| Fat32Chain.ChainUnique | kernel/fs/fat32.c:291-321 | the FAT determines the chain that starts at a cluster |
| Fat32Chain.ChainWords | kernel/fs/fat32.c:291-321 | a chain ends with a word from 0x0ffffff8 on |
| Fat32Chain.ChainsDisjoint | kernel/fs/fat32.c:225-251 | chains of different entries have no cluster in common |
| Fat32Chain.AllocatedIsOwned | kernel/fs/fat32.c:225-251 | nonzero FAT entries are exactly the clusters in chains and those allocated from the start |
| Fat32Chain.ContentIsConcat | kernel/fs/fat32.c:325-378 | contents are the clusters of the chain put end to end |
| Fat32Chain.AttributeBits | kernel/fs/fat32.c:325-354 | bit 4 of the attribute is a directory, bit 0 is read-only |
| Fat32Chain.GrowChain | kernel/fs/fat32.c:291-321 | linking a fresh cluster behind a chain keeps all chains well formed and disjoint |
| Fat32Chain.DropChain | kernel/fs/fat32.c:654-664 | giving up one chain keeps all others well formed and accounted for |
| Fat32Chain.AttachInv | kernel/fs/fat32.c:764-772 | taking on a chain that nobody has keeps all chains well formed, disjoint and accounted for |
| Fat32Chain.DetachInv | kernel/fs/fat32.c:402-412 | giving an entry up without freeing its chain keeps them too |
| Fat32Chain.OwnersInv | kernel/fs/fat32.c:225-251 | such chains have an assignment of clusters to owners that accounts for every nonzero FAT entry |
| DirCodec.ParseLong | kernel/fs/fat32.c:784-825 | decoding the slots of a long name gives back the name, split over 13-character slots, and its information |
| DirCodec.ReadLongCopies | kernel/fs/fat32.c:732-762 | one long slot contributes its 13 characters at their place in the name buffer |
| DirCodec.SnstrCopies | kernel/libc/string.c:106-113 | wide characters are copied by their low bytes up to the first zero |
| DirBytes.EncodeBytes | kernel/fs/fat32.c:515-556 | the slots of an entry byte by byte: numbers with the mark 64 on the last, thirteen characters at their positions with 0 and then 255 behind the name, checksum, and in the short slot attribute, cluster in bytes 20, 21, 26, 27 and size in 28 to 31, all else zero |
| DirBytes.ParseInfo | kernel/fs/fat32.c:764-769 | attribute, cluster and size that a parse returns are the bytes of the slot it stops at, the first that is no long one |
| DirBytes.ScanInfo | kernel/fs/fat32.c:853-874 | the same of what a scan finds |
| DirBytes.PatchBytes | kernel/fs/fat32.c:622-628 | the rewritten slot has cluster and size in those bytes and keeps every other byte |
| DirBytes.DotSlotBytes | kernel/fs/fat32.c:503-514 | "." and ".." byte by byte, with attribute 16 and the cluster asked for |
| DirBytes.MarkBytes | kernel/fs/fat32.c:800-812 | a slot that begins with 0 ends the directory, and slots that begin with 229 are counted as erased |
| DirBytes.ChecksumStep | kernel/fs/fat32.c:479-486 | each character adds to the sum rotated right by one bit, in eight bits |
| DirBytes.RotatedBits | kernel/fs/fat32.c:479-486 | that rotation is the one of an eight-bit word |
| DirModel.ScanIsLookup | kernel/fs/fat32.c:835-878 | a cold scan is a lookup in the directory's map, with the slot of the entry or the end of the directory |
| DirModel.MakeInserts | kernel/fs/fat32.c:494-557 | slots written at the end offset insert exactly that item, reusing a trailing erased run |
| DirModel.EraseRemoves | kernel/fs/fat32.c:635-650 | marking the slots that the first byte counts removes exactly that item |
| DirModel.PatchUpdates | kernel/fs/fat32.c:615-630 | rewriting the short slot changes first cluster and size of exactly that item |
| DirModel.MakeTheorem | kernel/fs/fat32.c:494-557 | after making a name where the scan gave up, a scan finds it there, and every other name as before |
| DirModel.RemoveTheorem | kernel/fs/fat32.c:635-650 | after erasing the name is not found, and every other name is found as before |
| DirModel.UpdateTheorem | kernel/fs/fat32.c:615-630 | after updating the scan shows the new cluster and size, and every other name as before |
| DirModel.DotTheorem | kernel/fs/fat32.c:503-514 | at slot 0 or 1 the name is not made: it is still not found, and the directory stays well formed |
| DirModel.MadeExactly | kernel/fs/fat32.c:494-557 | making a name where the scan gave up works exactly when that is not one of the first two slots |
| DirModel.FirstTwoLost | kernel/fs/fat32.c:494-557 | in a root directory without entries the first two names that are made are lost, whatever they are, and the third is made |
| Directory.ReadSlot | kernel/fs/fat32.c:784-800 | the slot at an offset, or the end of the chain |
| Directory.CalChecksum | kernel/fs/fat32.c:479-486 | the checksum of section 7.2 of the Microsoft FAT specification |
| Directory.GenerateShortname | kernel/fs/fat32.c:438-477 | the 8.3 name: eight characters of what is before the last dot and three of what is behind it, without blanks and dots, in capitals, filled up with blanks |
| Directory.ShortStays | kernel/fs/fat32.c:438-477 | a name of up to eight and three capitals and digits keeps them, filled up with blanks |
| Directory.ShortChars | kernel/fs/fat32.c:440-470 | small letters become capitals, six characters become _, blanks and dots go |
| Directory.FillLongEntry | kernel/fs/fat32.c:522-543 | a long slot with ordinal, characters, terminator and padding in their places |
| Directory.EMake | kernel/fs/fat32.c:494-557 | the directory's slots are the old ones with the encoded entry written over them, byte by byte as `EntryBytes` says, across cluster boundaries; it runs out exactly when the chain needs more clusters than are free; no other entry changes |
| Directory.EMakeDot | kernel/fs/fat32.c:494-514 | "." at offset 0 and ".." at offset 32, byte by byte with the cluster asked for, without growing the chain; nothing else changes |
| Directory.ENext | kernel/fs/fat32.c:784-825 | what it returns is the decoding of the slots from that offset, whatever clusters they lie in, and attribute, cluster and size are the bytes of the slot where it stops |
| Directory.DirScan | kernel/fs/fat32.c:853-874 | the loop over the stored directory is the scan of its slots, and attribute, cluster and size of a hit are bytes of a stored slot |
| Directory.EUpdate | kernel/fs/fat32.c:615-630 | exactly the short slot of the entry is rewritten, in the right cluster, and there exactly the bytes of first cluster and size |
| Directory.ERemove | kernel/fs/fat32.c:635-650 | exactly the slots that emake wrote get 229 as their first byte, across cluster boundaries, and no other byte changes |
| EntryState.VictimHasNoChild | kernel/fs/fat32.c:402-412 | a slot chosen for recycling is the parent of no cached or removed-but-referenced entry |
| EntryState.TakenCore | kernel/fs/fat32.c:402-412 | recycling a slot keeps reference counts, parents and the order of the list |
| EntryState.HitOnCore | kernel/fs/fat32.c:389-399 | a hit, which references the parent when it is the first, keeps them too |
| EntryState.DroppedCore | kernel/fs/fat32.c:680-712 | dropping the last reference and moving to the front keeps them, and hands one reference to the parent over |
| EntryState.FilledCore | kernel/fs/fat32.c:866-869 | filling a slot below its directory keeps them |
| EntryDisk.HitIsScan | kernel/fs/fat32.c:389-399 | a cache hit on parent and name is what a fresh directory scan returns, up to an update not yet written |
| EntryDisk.FilledDisk | kernel/fs/fat32.c:862-870 | a slot filled from a scan agrees with the disk and repeats no cached name or directory |
| EntryDisk.FlushedInv | kernel/fs/fat32.c:615-630 | writing an update back keeps every cached entry in step with the disk |
| EntryDisk.RemovedInv | kernel/fs/fat32.c:635-650 | removing a file or an empty directory keeps every other cached entry in step, and no cached entry has it as parent |
| EntryDisk.TruncatedInv | kernel/fs/fat32.c:693-695 | freeing the clusters of a removed entry harms no cached entry |
| EntryDisk.ModifiedInv | kernel/fs/fat32.c:349-378 | a file written through the cache stays the right hit until it is written back |
| EntryDisk.IsDirEmptyExact | kernel/syscall/sysfile.c:447-455 | `isdirempty` holds exactly when all items behind "." and ".." are erased |
| EntryDisk.EmptyDir | kernel/syscall/sysfile.c:447-455 | in a directory that it accepts no name is found |
| EntryCreate.FreshDirOk | kernel/fs/fat32.c:587-591 | a new directory with "." and ".." is well formed, empty and has no names |
| EntryCreate.FreshDots | kernel/fs/fat32.c:587-591 | in a new directory "." is the directory itself and ".." its parent, byte by byte and as enext reads them; all other slots are zero |
| EntryCreate.CreatedInv | kernel/fs/fat32.c:587-597 | making a name, and the directory it stands for, changes what no cached entry says |
| EntryCreate.InvalidatedInv | kernel/fs/fat32.c:133-145 | forgetting unreferenced entries keeps the invariant on the same disk |
| EntryCreate.RemountInv | kernel/fs/fat32.c:130-145 | when only the root is in use, the disk may be replaced by any other with the same root cluster (the root's cursor: `Remount`) |
| EntryCache.Cache.constructor | kernel/fs/fat32.c:104-128 | the empty cache satisfies the invariant over any directory tree |
| EntryCache.Cache.EGet | kernel/fs/fat32.c:385-415 | the hit on parent and name if there is one, else the least recently used unreferenced slot, else panic exactly when all are referenced |
| EntryCache.Cache.EDup | kernel/fs/fat32.c:603-611 | one more reference, nothing else |
| EntryCache.Cache.EUpdate | kernel/fs/fat32.c:615-630 | the invariant is kept; a scan of the directory then finds the entry with its cluster and size, and every other name as before; an entry with nothing to write changes nothing |
| EntryCache.Cache.EPut | kernel/fs/fat32.c:680-716 | it ends, takes exactly one reference from its caller, keeps the invariant, every name and every directory still reachable; the last put of a removed entry frees its clusters |
| EntryCache.Cache.DirLookup | kernel/fs/fat32.c:835-878 | one new reference to the entry for that name exactly when a scan finds it; a removed directory has only "." and ".."; panic only for a non-directory or a full cache |
| EntryCache.ScanSound | kernel/fs/fat32.c:853-874 | a scan of a well-formed directory never runs astray |
| Mount.ColdScan | kernel/fs/fat32.c:853-874 | the loop over the clusters of the volume finds for every cached name what the cache says, up to an update not yet written |
| Mount.WriteBack | kernel/fs/fat32.c:615-630 | `eupdate` run on the volume: cache and stored directories stay together, a scan finds the new cluster and size, and every other entry keeps fields, chain and bytes |
| Mount.WriteFile | kernel/fs/fat32.c:349-378 | `ewrite` of an open file, removed or not, run on the volume: the bytes are spliced in, no directory and no other file changes, and the cached entry has the new size and cluster, marked when they are new |
| Mount.Remove | kernel/fs/fat32.c:635-650 | `eremove` run on the volume: exactly that name is gone from the stored directory, cache and volume stay together, and every other entry, that of the removed file included, keeps fields, chain and bytes |
| Mount.FreeRemoved | kernel/fs/fat32.c:654-664 | `etrunc` at the last put of a removed entry: exactly its chain is freed, and every other entry keeps fields, chain and bytes |
| Mount.NewCluster | kernel/fs/fat32.c:587-591 | the cluster allocated for a new directory is zero and the first cluster of no directory |
| Mount.MakeDir | kernel/fs/fat32.c:587-591 | the new directory is stored with "." for itself and ".." for its parent, byte by byte, exactly when a cluster is free; every other entry keeps fields, chain and bytes |
| Mount.MakeName | kernel/fs/fat32.c:587-597 | the name, and for a directory what it stands for, is stored in its parent, exactly when the clusters suffice; every other entry keeps fields, chain and bytes |
| Mount.Allocate | kernel/fs/fat32.c:562-601 | `ealloc` after the lookup missed, run on cache and volume together: it succeeds exactly when the clusters suffice; then the invariant, one new reference to the new name, cache and stored directories agree, and every other entry keeps fields, chain and bytes |
| Volume.MountVolume | kernel/fs/fat32.c:72-128 | on a consistent volume, where every name has a well-formed chain of its own, cache and volume belong together (`Whole`) after mounting |
| Volume.Settled | kernel/fs/fat32.c:349-716 | a volume on which no update is pending and no removed file is open is consistent again, whatever was done to it |
| Volume.EveryName | kernel/fs/fat32.c:225-251 | every name of a file, open or not, has a well-formed chain that shares no cluster with any other entry, and its slot says what the file is unless an update is pending |
| Volume.NamesApart | kernel/fs/fat32.c:225-251 | two names never share a cluster |
| Volume.ClusterAccounted | kernel/fs/fat32.c:225-251 | a cluster in use that was known at mounting or allocated since is in the chain of a directory, a named file or a removed open file |
| Volume.CacheMoves | kernel/fs/fat32.c:385-415 | a hit, a recycled slot, a slot filled from a scan, one reference more or less and the last one of a file without changes keep `Whole` |
| Volume.Look | kernel/fs/fat32.c:853-874 | a scan keeps `Whole`, and what it finds is what the entry of the file says unless an update is pending |
| Volume.WriteOpen | kernel/fs/fat32.c:349-378 | `ewrite` of an open file, cached, reopened or removed, keeps `Whole` and every other entry |
| Volume.TruncateOpen | kernel/fs/fat32.c:654-664 | `etrunc` of an open file frees exactly its chain, empties it, and keeps `Whole` and every other entry |
| Volume.Flush | kernel/fs/fat32.c:615-630 | `eupdate` keeps `Whole` and every other entry |
| Volume.PutCached | kernel/fs/fat32.c:680-712 | the last put of a cached file writes what is new and keeps `Whole`; the file can be opened and written again |
| Volume.Unlink | kernel/fs/fat32.c:635-650 | `eremove` keeps `Whole`: the entry of the file goes from its name to its holders |
| Volume.PutRemoved | kernel/fs/fat32.c:693-695 | the last put of a removed file or directory frees exactly its chain and keeps `Whole` |
| Volume.CreateName | kernel/fs/fat32.c:562-601 | `ealloc` keeps `Whole`, exactly when the clusters suffice |
| Volume.RemountVolume | kernel/fs/fat32.c:130-145 | when only the root is in use, a card replaced by another consistent one belongs to the invalidated cache from the next scan of the root on |
| EntryOps.FormatName | kernel/fs/fat32.c:418-435 | the part between the blanks and dots in front and the blanks at the end, or refused exactly for one of the characters that are written out |
| EntryOps.FormattedOk | kernel/fs/fat32.c:418-435 | a formatted name is legal and is neither "." nor ".." |
| EntryOps.AllocBits | kernel/fs/fat32.c:587-596 | a new directory has attribute 16 and its cluster, a device 64, any other file the archive bit and no cluster |
| EntryOps.EAlloc | kernel/fs/fat32.c:562-601 | the existing entry or a new one, whose name a scan then finds with these attributes, a new directory with its own "." and ".."; nothing else on the disk changes; one new reference; refused exactly for a removed directory or an illegal name, panic only for a non-directory or a full cache |
| EntryOps.ERemove | kernel/fs/fat32.c:635-650 | the name is gone from its directory, the rest of the disk and all other entries are as before |
| EntryOps.Invalidate | kernel/fs/fat32.c:133-145 | exactly the unreferenced entries are dropped |
| EntryOps.Modify | kernel/fs/fat32.c:349-378 | a change of size or first cluster keeps the invariant and stays in the cache until it is put; `Mount.WriteFile` is `ewrite` with the values it computes |
| EntryPath.PathIsWalk | kernel/fs/fat32.c:380-384 | following an entry's chain of names from the root on disk leads to what the entry says |
| EntryPath.ElemsOfJoin | kernel/fs/fat32.c:880-900 | splitting a path name undoes joining its elements |
| EntryPath.ElemsRules | kernel/fs/fat32.c:880-900 | slashes in front do not matter and an element is cut after 255 bytes |
| EntryPath.TurnNames | kernel/fs/fat32.c:835-848 | "." stays, ".." goes up and stays at the root, any other name goes down |
| EntryPath.ResolveWalk | kernel/fs/fat32.c:903-938 | resolving ordinary names is walking them: it ends at them exactly when something is there |
| EntryPath.ResolveParent | kernel/fs/fat32.c:903-938 | for the parent it ends at the directory above the last name, exactly when that is there |
| EntryLookup.SkipElem | kernel/fs/fat32.c:880-900 | the first element, cut to 255 bytes, and the rest without slashes in front |
| EntryLookup.LookupPath | kernel/fs/fat32.c:903-938 | an absolute path is looked up from the root and a relative one from the current directory; for ordinary names the entry with exactly that path is returned when the disk has one, and none when it has not; in general the result is what the path leads to on the disk alone, also from a removed directory; one new reference on success and none on failure; panic only when every slot is referenced |
| FileApi.OpenFile.FileRead | kernel/fs/file.c:128-153 | the next piece of the file, the count as a signed number, and the offset moves behind it when that is positive, for every count including negative ones |
| FileApi.OpenFile.FileReadAt | kernel/fs/file.c:157-168 | the piece at an explicit offset, the file's own offset unchanged |
| FileApi.OpenFile.FileWrite | kernel/fs/file.c:173-210 | all bytes spliced in at the offset, which moves behind them, or nothing changes |
| FileApi.OpenFile.FileWriteAt | kernel/fs/file.c:214-232 | exactly the range inside the file changes; size, chain and offset do not, and no cluster is needed |
| FileApi.ReadsAreConsecutive | kernel/fs/file.c:128-153 | any sequence of reads returns consecutive pieces of the content from the starting offset |
| FileApi.ReadsReachEnd | kernel/fs/file.c:128-153 | together they reach as far as asked, or the end of the file |
| BufferCache.ClockVictim | kernel/fs/bio.c:39-68 | the second chance: from the hand on, the first unreferenced buffer without reference bit is taken and those unreferenced before it lose their bits; if there is none, all lose them and the first unreferenced one is taken; the hand ends behind it; null exactly when all are referenced |
| BufferCache.ClockOk | kernel/fs/bio.c:39-68 | two passes over all buffers always suffice: no victim exactly when every buffer on the ring is referenced; the hand ends on the ring and off the victim |
| BufferCache.ClockChooses | kernel/fs/bio.c:39-68 | the sweep chooses so from every ring, hand and bits |
| BufferCache.BucketOrder | kernel/fs/bio.c:128-132 | the hunt begins with the bucket of the block and goes on to the next, from the last to the first |
| BufferCache.Bcache.constructor | kernel/fs/bio.c:70-97 | every buffer is on exactly one ring, dealt out in turn from bucket 0 on, and every hand is at the head of its ring |
| BufferCache.Bcache.BGet | kernel/fs/bio.c:102-166 | a locked buffer tagged with the block, or the locked buffer on which the caller has to sleep; else the victim of the second chance in the first bucket, from that of the block on, that has an unreferenced buffer; others untouched; fails only when all buffers are referenced and none is tagged with the block |
| BufferCache.Bcache.Wake | kernel/fs/bio.c:116-118 | the sleeper gets the lock once it is free, and its reference becomes that of the holder |
| BufferCache.Bcache.BRead | kernel/fs/bio.c:169-181 | the buffer holds the disk's current block, or what an earlier holder changed and did not write; none such when every holder writes |
| BufferCache.Bcache.Load | kernel/fs/bio.c:174-180 | a buffer that is not valid gets the disk's current block |
| BufferCache.Bcache.BWrite | kernel/fs/bio.c:184-190 | exactly that block of the disk changes |
| BufferCache.Bcache.BRelse | kernel/fs/bio.c:212-227 | one reference less, whether or not the holder wrote; if it did, every buffer given back is in step with the disk |
| BufferCache.Bcache.BPin | kernel/fs/bio.c:229-236 | one more reference |
| BufferCache.Bcache.BUnpin | kernel/fs/bio.c:238-245 | one reference less |
| BufferCache.Bcache.BInvalidate | kernel/fs/bio.c:195-208 | after the disk changed behind it the cache agrees with it again |
| BufRing.LiveUnique | kernel/fs/bio.c:102-166 | at most one live buffer stands for a block |
| BufferSteps.StepKeeps | kernel/fs/bio.c:102-245 | every step of every processor keeps rings, bucket and sleep locks, reference counts and private buffers consistent |
| BufferSteps.Conserved | kernel/fs/bio.c:102-166 | in every run each buffer is once on one ring or in the hands of one processor |
| BufferSteps.OneLock | kernel/fs/bio.c:120-150 | in every run no processor holds two bucket locks |
| BufferSteps.CountsExact | kernel/fs/bio.c:212-245 | in every run a reference count is the sum of the references that the processors hold plus the pins, a counted buffer is on the ring of its block, and who has the sleep lock holds a reference |
| BufferSteps.UniqueLive | kernel/fs/bio.c:102-166 | in every run in which no two processors are between lines 126 and 150 for the same block, live buffers are unique |
| BufferDisk.DStepKeeps | kernel/fs/bio.c:102-245 | with the disk as part of the state, every step of every processor keeps valid buffers equal to their blocks, or changed by their owner, when windows stay apart and owners write before they give a buffer back |
| BufferDisk.OwnerReadsDisk | kernel/fs/bio.c:169-181 | in every such run the owner of a valid buffer that it has not changed has the current block of the disk |
| BufferDisk.TagKept | kernel/fs/bio.c:102-166 | in every such run a buffer that a processor has a reference to stands for the same block |
| BufferRace.RaceDuplicates | kernel/fs/bio.c:126-150 | otherwise a run of twelve steps gives one block two live buffers |
| BufferRace.OverlapDuplicates | kernel/fs/bio.c:126-165 | from every state of every run in which two processors are between lines 126 and 150 for one block, with an unreferenced buffer within reach for each that still looks for one, finishing both calls gives the block two live buffers |
| BufferRace.HuntPanics | kernel/fs/bio.c:128-148 | a processor without such a buffer ends in the panic "no buffers" |
| VirtioDesc.Descriptors.AllocDesc | kernel/driver/virtio_disk.c:139-150 | the first free descriptor, none exactly when all are in use |
| VirtioDesc.Descriptors.Alloc3Desc | kernel/driver/virtio_disk.c:183-197 | three descriptors, or nothing changed, exactly when fewer than three are free |
| VirtioDesc.Descriptors.FreeChain | kernel/driver/virtio_disk.c:168-181 | exactly the descriptors of the chain are freed, none of them twice |
| VirtioSteps.StepKeeps | kernel/driver/virtio_disk.c:198-311 | every step of requesters, device and interrupt handler keeps the invariant |
| VirtioSteps.DescInOneChain | kernel/driver/virtio_disk.c:182-270 | in every run a descriptor is free or in exactly one chain of three |
| VirtioSteps.AvailSlotFree | kernel/driver/virtio_disk.c:255-261 | an avail entry is never written over one the device has yet to consume, across wrap-around of the index |
| VirtioSteps.UsedSlotFree | kernel/driver/virtio_disk.c:293-308 | nor a used entry over one the handler has yet to see |
| VirtioSteps.DevTakeRight | kernel/driver/virtio_disk.c:255-265 | the device finds the transfers in the order they were submitted |
| VirtioSteps.IntrRight | kernel/driver/virtio_disk.c:296-308 | the handler never panics and clears the flag of the buffer that was submitted with that chain, which is still set |
| VirtioSteps.HandlerMissesNothing | kernel/driver/virtio_disk.c:293-308 | equal 16-bit indices mean that every completion was handled |
| VirtioSteps.DeviceMissesNothing | kernel/driver/virtio_disk.c:255-265 | and that every submission was consumed |
| VirtioSteps.FinishRight | kernel/driver/virtio_disk.c:267-275 | a requester that wakes up frees a chain of allocated descriptors, so `free_desc` cannot panic |
| VirtioSteps.ClearedOnce | kernel/driver/virtio_disk.c:278-311 | in every run each submission of a buffer was matched by one clearing of its flag or is still under way |
| VirtioSteps.IndicesCount | kernel/driver/virtio_disk.c:255-308 | in every run the indices are sixteen-bit counters of what was submitted, consumed, completed and handled |
| VirtioDraft.StepShows | kernel/driver/virtio_disk.c:211-261 | write by write, with steps of the device between any two writes, a submission is one step of the protocol and each step of the device is its step there |
| VirtioDraft.RunShows | kernel/driver/virtio_disk.c:211-261 | in every run at this grain memory is a state of the protocol but for the submission being written |
| VirtioDraft.DeviceSeesWhole | kernel/driver/virtio_disk.c:255-265 | the device never sees a submission half written: each new avail entry is the head of a complete chain of three |
| RingBuffer.Ring.Push | kernel/driver/ringbuffer.c:49-57 | the byte joins the end of the queue, refused exactly when it holds its capacity |
| RingBuffer.Ring.Pop | kernel/driver/ringbuffer.c:59-67 | the front of the queue, refused exactly when it is empty |
| RingBuffer.Ring.Used | kernel/driver/ringbuffer.c:20-28 | the length of the queue |
| RingBuffer.Ring.Free | kernel/driver/ringbuffer.c:30-34 | the room left |
| RingBuffer.Ring.Empty | kernel/driver/ringbuffer.c:36-40 | whether the queue is empty |
| RingBuffer.Ring.Full | kernel/driver/ringbuffer.c:42-47 | whether it holds its capacity |
| RingBuffer.Ring.Reset | kernel/driver/ringbuffer.c:69-74 | the queue is empty afterwards |
| Uart.Rx.FifoDrain | kernel/driver/uart.c:183-198 | the FIFO goes to the ring as far as it fits, the rest is counted as dropped |
| Uart.Rx.DmaStop | kernel/driver/uart.c:241-266 | the DMA buffer goes to the ring as far as it fits, the rest is counted as dropped |
| Uart.Rx.RxIsr | kernel/driver/uart.c:293-306 | drains in PIO mode, harvests a full block in DMA mode, keeps order and account |
| Uart.Rx.TimeoutIsr | kernel/driver/uart.c:308-327 | everything received goes to the ring in order, the DMA buffer before the FIFO |
| Uart.Rx.DmaRxIsr | kernel/driver/uart.c:329-343 | harvests exactly a full block |
| Uart.Rx.SetMode | kernel/driver/uart.c:491-530 | switching modes keeps order and account |
| Uart.Rx.Read | kernel/driver/uart.c:218-239 | the front of the ring, up to the requested length |
| Uart.Rx.FlushRx | kernel/driver/uart.c:345-364 | everything is discarded and the account starts anew |
| Uart.DropOne | kernel/driver/uart.c:190-195 | dropping a byte leaves the other arrivals in order and raises the count by one |
| Burn.Transfer | tools/burn.py:621-704 | the loops of the host do what the transfer specification says, turn by turn, and it reaches DONE exactly when each sector is acknowledged within six responses |
| Burn.SentAtMostSix | tools/burn.py:627-690 | each sector is sent at most 6 times |
| Burn.GetsThrough | tools/burn.py:627-690 | when each sector is acknowledged within six responses the host gets through, and sends each sector as often as the position of that response |
| Burn.GivesUp | tools/burn.py:634-643 | when six responses in a row are something else the host stops |
| Burn.GivesUpAfterSix | tools/burn.py:627-690 | it has then sent that sector exactly six times, and none behind it |
| Burn.ThroughExactly | tools/burn.py:627-690 | one of the two is always the case |
| Burn.SendsInOrder | tools/burn.py:621-690 | nothing is sent for sector k + 1 before an acknowledgement with number k |
| Burn.DoneMeansStored | tools/burn.py:621-704 | when the host reaches DONE against an honest board, the card holds every sector of the padded image |
| Burn.LeftoverExactly | tools/burn.py:659-674 | with any old responses left over when the DATA phase begins and a board that later acknowledges only what it stored, DONE with a sector missing is possible exactly when one of them is an acknowledgement of sector 0 and the host gets through them all |
| Burn.FewLeftovers | tools/burn.py:627-690 | the host always gets through six or fewer of which one acknowledges sector 0 |
| Burn.NoLeftoverSafe | tools/burn.py:621-704 | without an acknowledgement of sector 0 among them DONE means that the card holds every sector |
| Burn.LeftoverExample | tools/burn.py:659-674 | a run that loses a one-byte image to the acknowledgement of the handshake |
| Burn.ChunksAreImage | tools/burn.py:621-625 | the sectors put together are the image and then zeros |
| FatTrim.EffectiveSize | tools/burn.py:112-184 | refused exactly for an image that is not FAT32 or whose areas lie outside it; otherwise the size ends with the last allocated cluster |
| FatTrim.BootBytes | tools/burn.py:123-131 | which bytes of the boot sector are which number |
| FatTrim.AcceptedExactly | tools/burn.py:133-157 | the checks in numbers |
| FatTrim.SameFat | tools/burn.py:152-161 | host and kernel look at the same FAT entries |
| FatTrim.SendTrimmed | tools/burn.py:418-424 | sending the image cut to a number of sectors is sending that many sectors of it |
| FatTrim.TrimExactly | tools/burn.py:112-184 | for every image that is accepted, of any length: FAT and clusters in use are the same on every card whether the whole image, its last sector filled up, or only the trimmed part was sent, exactly when the image does not end inside a cluster in use |
| FatTrim.WholeImage | tools/burn.py:112-184 | an image that holds its whole volume does not |
| FatTrim.TrimKeepsFiles | tools/burn.py:112-184 | then every chain the kernel can follow reads the same bytes |
| FatTrim.CutFileLost | tools/burn.py:152-184 | otherwise, when the cut cluster ends its chain, the file in it reads differently on some card |
| FatTrim.CutImageLosesFile | tools/burn.py:152-184 | images of 2049 to 3071 bytes, whole sectors or not, of which two sectors are sent, and the file that is lost |
| Slip.TwoPassIsEscape | tools/kflash.py:626-631 | the two replacements are escaping in one pass |
| Slip.FrameBytes | tools/kflash.py:626-631 | a packet goes out between two bytes 192, with 192 as 219 220 and 219 as 219 221 |
| Slip.OrderMatters | tools/kflash.py:626-631 | in the other order they give the same exactly for packets without the byte 0xc0 |
| Slip.Reader.Feed | tools/kflash.py:328-361 | the reader's packets and state are those of reading byte by byte |
| Slip.RoundTrip | tools/kflash.py:328-361 | packets written and read in any pieces come back as they were |

## Left out

- FromBpb: a volume with no sectors per cluster, on which the original divides by zero; the other operations take a geometry that `FromBpbExactly` finds valid.
- EWrite: nothing is promised about the file system once clusters run out, since the original then takes a FAT word behind the last cluster (`AllocClus` says which) or panics.
- EWrite: copying from user memory never fails here; in the original a fault leaves bytes in a cached buffer that was not written.
- EMake: names are printable ASCII of 1 to 247 bytes; longer names overrun the name buffer when they are read back.
- GenerateShortname: that two long names can get the same short name is not excluded, because lookups never use short names.
- EAlloc: in the root directory the new entry must not fall into the first two slots (see `DotTheorem`); names that formatting reduces to nothing or that are longer than 247 bytes, and attributes that contain the directory bit beside others, are not covered.
- EAlloc: the cluster of a new directory, the short name and the blank slots by which the parent grew are inputs here; `Mount.Allocate` is the same operation with those that `alloc_clus` and `emake` produce.
- Allocate: what is on the volume when clusters run out half way is not stated, only when that happens; the same holds for CreateName and MakeName.
- FreeRemoved: which entry of the file layer is a removed file is an input; in `Volume` the index says it.
- ReadEntryInfo: two entries for the same chain are outside the invariant; in `Volume` each name has one.
- DirLookup: the fields that a failed scan leaves in an unused slot are not modelled, since no reader looks at them.
- Cache: calls are atomic; `eput` reads `ref` outside the lock at line 709, and nothing is claimed about concurrent calls. The list is a sequence of slots instead of links.
- FileWrite: pipes and devices are other branches of the same function and not modelled; neither is reference counting of open files.
- BGet: reference counts do not wrap.
- DStepKeeps: an owner that gives a buffer back without writing what it changed, and a disk that changes behind the cache, are left to the sequential model (`BRead`, `BInvalidate`).
- Modify: cluster and size are parameters; `Mount.WriteFile` is the operation with those that `ewrite` computes.
- RemountInv: the cursor of the root is not part of the cache's state here; `Remount` and `RemountVolume` have it.
- ClusterAccounted: clusters in use that nothing on the volume refers to when it is mounted stay unaccounted for.
- OverlapDuplicates: no third processor is inside a critical section when the two go on, since what it does there may take away a buffer that they need.
- Submit: the device always reports success, and one round of the interrupt handler is one step.
- Rx: hardware overrun of the FIFO and the change of baud rate, which discards bytes in PIO mode, are not modelled; a handler is atomic.
- Transfer: checksums, the shell handshake, the change of baud rate and the DONE message's answer; the board's program is not part of this model and appears as the assumptions `Honest` and `LaterHonest`.
- TrimExactly: the 16-bit size fields of the boot sector, which the host prefers and the kernel ignores, are zero (`Agrees`), as FAT32 demands.
- TrimKeepsFiles: FAT entries have their upper four bits clear (`Narrow`), which the kernel relies on as well.
- DirOk: entries without long names, which other tools make for short names, are outside this predicate, so directories that contain them are not covered.
- Only the first copy of the FAT is written by the code and modelled; time stamps, `dirnext` and `estat` are not.
- Register access, scheduling, virtual memory, pipes and the remaining device drivers.
