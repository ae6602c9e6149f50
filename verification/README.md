# BlockArray — a Dafny model of BuilderTools' packed block-edit store

BuilderTools stores the block edits of a selection (fill, copy, paste, …) in a
`BlockArray`. The edits are not kept as objects. Each edit is a fixed 10-byte record
appended to one byte string:

| bytes | content |
|---|---|
| 0 | `chr(id)`: the block id, reduced to a byte |
| 1 | `chr(meta)`: the block meta, reduced to a byte |
| 2..9 | `pack("q", Level::blockHash(x, y, z))`: the position key |

A cursor `offset` marks the next unread record. `hasNext`/`readNext` step through the
records. `read` is a generator with two modes. Destructive mode drops every record
as it is read. Restartable mode rewinds the cursor at the end. `cleanGarbage` drops
the records already read. `addVector3`/`subtractVector3` build a new array whose
positions are all moved by a vector. The `DuplicateBlockDetector` trait can filter
repeated positions. It keeps the accepted keys concatenated in a cache string. A key
counts as present only when it occurs there at an offset that is a multiple of 8.

The model is functional. `BlockArrays.BlockArray` is an immutable record of the
object's fields `(buffer, offset, detect, cache)`. Each PHP method is a function
returning the new state and whatever it yields. `addVector3` is a method whose loop
follows the PHP loop. `chr` keeps the low byte of its argument (it ANDs with 255), which is Dafny's `% 256` on integers. The modules are:

- `LittleEndian`: bytes, 64-bit integers, and `pack("q")`/`unpack("q")` with both round trips.
- `Position`: positions and the level's spatial hash. The hash is a parameter `Codec`, and
  the assumption about it is the predicate `Lawful`.
- `DuplicateDetector`: `strpos`, the `isDuplicate` loop, and its meaning as aligned slot membership.
- `Records`: the 10-byte record codec and whole-buffer views: decoded blocks, keys and translation.
- `BlockArrays`: the state and every operation of `BlockArray`.
- `BlockArrayProperties`: properties that span several operations.

The level's codec (`Level::blockHash`, `Level::getBlockXYZ`) is not part of this model.
Every operation that encodes or decodes a position takes it as a parameter `c: Codec`.
`Lawful(c)` states the one thing the array relies on: `unhash(hash(p)) == p` for every
`p` in the codec's domain. Properties that need a position to survive a round trip
take `Lawful(c)` and `c.inDomain(p)` as preconditions.

Points where the code behaves differently from what its comments and names suggest, as modelled:

- `addVector3` does not drain its source. It reads from the cursor to the end, leaves the
  source buffer as it was and sets the source cursor to 0 (`AddVector3` returns both arrays).
- `subtractVector3` negates the vector and then calls `addVector3`, which takes the ceiling.
  With an integer displacement the order does not matter.
- `read(true)` calls `cleanGarbage` only after a record was read. If nothing is left to read,
  the state stays exactly as it was, and that includes a non-empty buffer of records already read.
- `readNext` has no bounds check. The model takes `hasNext()` as its precondition.

## Model

| member | source | states |
|---|---|---|
| LittleEndian.UnpackPack | out/BuilderTools/src/czechpmdevs/buildertools/blockstorage/BlockArray.php:95 | unpacking the 8 bytes packed from a 64-bit integer gives the integer back |
| LittleEndian.PackUnpack | out/BuilderTools/src/czechpmdevs/buildertools/blockstorage/BlockArray.php:65 | packing the integer unpacked from any 8 bytes gives the same bytes back |
| LittleEndian.PackInjective | out/BuilderTools/src/czechpmdevs/buildertools/blockstorage/BlockArray.php:65 | two keys pack to the same bytes exactly when they are equal, so byte comparison in the cache is key comparison |
| LittleEndian.FromToBytes | out/BuilderTools/src/czechpmdevs/buildertools/blockstorage/BlockArray.php:95 | reading back the little-endian bytes of a value that fits gives the value |
| LittleEndian.ToFromBytes | out/BuilderTools/src/czechpmdevs/buildertools/blockstorage/BlockArray.php:65 | writing back the value of a byte string gives the same string |
| Position.HashInjective | out/BuilderTools/src/czechpmdevs/buildertools/blockstorage/BlockArray.php:65 | under the codec assumption, two in-domain positions share a key exactly when they are equal |
| Records.DecodeEncode | out/BuilderTools/src/czechpmdevs/buildertools/blockstorage/BlockArray.php:91-96 | decoding the record that addBlock writes gives id mod 256, meta mod 256 and the original position |
| Records.DecodeAll | out/BuilderTools/src/czechpmdevs/buildertools/blockstorage/BlockArray.php:110-113 | a buffer of whole records decodes to one block per record, the k-th block being the k-th record decoded |
| Records.DecodeAllAppend | out/BuilderTools/src/czechpmdevs/buildertools/blockstorage/BlockArray.php:74-76 | the blocks of a concatenation are the blocks of each part, in order |
| Records.KeysSlot | out/BuilderTools/src/czechpmdevs/buildertools/blockstorage/BlockArray.php:71 | the k-th 8-byte slot of a buffer's keys is the key of its k-th record |
| Records.KeysAppend | out/BuilderTools/src/czechpmdevs/buildertools/blockstorage/BlockArray.php:71-76 | appending a record appends its key to the keys |
| Records.TranslateAllRecord | out/BuilderTools/src/czechpmdevs/buildertools/blockstorage/BlockArray.php:142-152 | the k-th translated record keeps the id and meta bytes of the k-th source record, and its key is the shifted position re-encoded |
| Records.TranslateAllDecodes | out/BuilderTools/src/czechpmdevs/buildertools/blockstorage/BlockArray.php:146-149 | decoding a translated buffer gives the source blocks with each position moved by v, when the moved positions are in the domain |
| DuplicateDetector.StrPos | out/BuilderTools/src/czechpmdevs/buildertools/blockstorage/BlockArray.php:210 | strpos returns the first match at or after the start index, or no match when there is none from there on |
| DuplicateDetector.Scan | out/BuilderTools/src/czechpmdevs/buildertools/blockstorage/BlockArray.php:210-216 | the loop from index i answers true exactly when the key occurs at some 8-aligned offset at or after i, and it terminates |
| DuplicateDetector.AlignedMatchIsSlot | out/BuilderTools/src/czechpmdevs/buildertools/blockstorage/BlockArray.php:211 | an aligned occurrence of an 8-byte key is exactly a stored slot equal to it |
| DuplicateDetector.IsDuplicate | out/BuilderTools/src/czechpmdevs/buildertools/blockstorage/BlockArray.php:209-217 | isDuplicate is true exactly when some aligned slot of the cache equals the key |
| DuplicateDetector.MisalignedMatchIsNoDuplicate | out/BuilderTools/src/czechpmdevs/buildertools/blockstorage/BlockArray.php:210-215 | a key spelled across two stored keys is found by strpos at offset 4, yet isDuplicate answers false |
| BlockArrays.New | out/BuilderTools/src/czechpmdevs/buildertools/blockstorage/BlockArray.php:53-55 | a new array is empty and valid, has an empty cache, and detectingDuplicates reports the constructor flag |
| BlockArrays.Size | out/BuilderTools/src/czechpmdevs/buildertools/blockstorage/BlockArray.php:128-130 | size times ten is the buffer length |
| BlockArrays.AddBlock | out/BuilderTools/src/czechpmdevs/buildertools/blockstorage/BlockArray.php:64-79 | a filtered position leaves the array unchanged; otherwise the 10-byte record is appended and the key joins the cache only when detecting; the invariant holds, size grows by one exactly when accepted, the cache grows 8 bytes per accepted record |
| BlockArrays.ReadNext | out/BuilderTools/src/czechpmdevs/buildertools/blockstorage/BlockArray.php:91-98 | under hasNext the cursor advances by 10, the block holds the record's id, meta and decoded key, and it is the head of the unread blocks |
| BlockArrays.CleanGarbage | out/BuilderTools/src/czechpmdevs/buildertools/blockstorage/BlockArray.php:193-196 | the cursor becomes 0, size drops by the records read, the unread blocks stay the same, and the flag and cache are untouched |
| BlockArrays.CancelDuplicateDetection | out/BuilderTools/src/czechpmdevs/buildertools/blockstorage/BlockArray.php:223-226 | detection is off and the cache is empty, while buffer and cursor are kept |
| BlockArrays.ReadLoop | out/BuilderTools/src/czechpmdevs/buildertools/blockstorage/BlockArray.php:111-118 | the loop yields the unread blocks in order; destructive mode ends with an empty buffer if it read anything, restartable mode with the cursor at the end |
| BlockArrays.Read | out/BuilderTools/src/czechpmdevs/buildertools/blockstorage/BlockArray.php:110-123 | both modes yield the unread blocks in order; read(true) empties the buffer when it read anything and leaves the state alone otherwise; read(false) only rewinds the cursor to 0 |
| BlockArrays.TranslateStep | out/BuilderTools/src/czechpmdevs/buildertools/blockstorage/BlockArray.php:143-151 | one loop turn of addVector3 extends the translated output by the current record translated |
| BlockArrays.TranslateFrom | out/BuilderTools/src/czechpmdevs/buildertools/blockstorage/BlockArray.php:141-152 | the addVector3 loop outputs every record from the cursor on, translated and in order |
| BlockArrays.AddVector3 | out/BuilderTools/src/czechpmdevs/buildertools/blockstorage/BlockArray.php:137-157 | the result is a fresh array with detection off and an empty cache, holding one translated record per unread source record; the source keeps its buffer and gets cursor 0 |
| BlockArrays.SubtractVector3 | out/BuilderTools/src/czechpmdevs/buildertools/blockstorage/BlockArray.php:164-166 | subtracting v gives exactly what adding the negated v gives |
| BlockArrayProperties.HasNextIffUnread | out/BuilderTools/src/czechpmdevs/buildertools/blockstorage/BlockArray.php:84-86 | on a valid array hasNext agrees with the read loop's test and holds exactly when an unread block is left |
| BlockArrayProperties.AddBlockAppendsUnread | out/BuilderTools/src/czechpmdevs/buildertools/blockstorage/BlockArray.php:74-76 | an accepted addBlock appends the stored edit to the end of the unread blocks |
| BlockArrayProperties.EncodedDecodesAppended | out/BuilderTools/src/czechpmdevs/buildertools/blockstorage/BlockArray.php:74-76 | decoding a buffer with one more record gives one more block, the edit with id and meta reduced to bytes |
| BlockArrayProperties.ReadBackAdded | out/BuilderTools/src/czechpmdevs/buildertools/blockstorage/BlockArray.php:91-97 | with the cursor on a freshly added record, readNext returns its position and its id and meta mod 256 |
| BlockArrayProperties.AddBlockKeepsKeysDistinct | out/BuilderTools/src/czechpmdevs/buildertools/blockstorage/BlockArray.php:66-71 | a detecting addBlock never stores a key twice in the cache |
| BlockArrayProperties.CancelledNeverFilters | out/BuilderTools/src/czechpmdevs/buildertools/blockstorage/BlockArray.php:223-226 | cancelling keeps the unread blocks, and afterwards every addBlock is accepted and the cache stays empty |
| BlockArrayProperties.ReadRestartable | out/BuilderTools/src/czechpmdevs/buildertools/blockstorage/BlockArray.php:120-122 | after read(false) the buffer is unchanged, and a second read(false) yields every record with the first call's output as its tail |
| BlockArrayProperties.ReadDestructiveOneShot | out/BuilderTools/src/czechpmdevs/buildertools/blockstorage/BlockArray.php:115-117 | after read(true) has yielded anything the size is 0, and a second read(true) yields nothing |
| BlockArrayProperties.CleanGarbageAfterOneRead | out/BuilderTools/src/czechpmdevs/buildertools/blockstorage/BlockArray.php:193-196 | after one of two records is read and garbage is collected, one record is left and it is the second edit |
| BlockArrayProperties.SamePositionTwice | out/BuilderTools/src/czechpmdevs/buildertools/blockstorage/BlockArray.php:66-69 | the same position added twice gives size 1 with detection on and size 2 with it off |
| BlockArrayProperties.InsertionOrder | out/BuilderTools/src/czechpmdevs/buildertools/blockstorage/BlockArray.php:74-76 | without detection a run of addBlock calls appends every edit to the unread blocks, in order, and size grows by the run length |
| BlockArrayProperties.FilteredIffStored | out/BuilderTools/src/czechpmdevs/buildertools/blockstorage/BlockArray.php:66-68 | wherever the cursor stands, while the cache mirrors the keys of all stored records, addBlock drops a position exactly when a stored record already has it |
| BlockArrayProperties.CanonicalAppend | out/BuilderTools/src/czechpmdevs/buildertools/blockstorage/BlockArray.php:74-76 | appending the record of an in-domain position keeps every record's key equal to the hash of its decoded position |
| BlockArrayProperties.AddBlockKeepsTracking | out/BuilderTools/src/czechpmdevs/buildertools/blockstorage/BlockArray.php:66-76 | at any cursor, a detecting addBlock keeps the cache equal to the stored keys, adds the position to the stored positions and keeps them distinct |
| BlockArrayProperties.AcceptedKeepsTracking | out/BuilderTools/src/czechpmdevs/buildertools/blockstorage/BlockArray.php:71-76 | an accepted detecting addBlock appends the record and its key together, so the cache keeps mirroring the stored keys and the new position is added |
| BlockArrayProperties.DetectionStoresEachPositionOnce | out/BuilderTools/src/czechpmdevs/buildertools/blockstorage/BlockArray.php:66-76 | from a fresh detecting array, a run of addBlock calls stores each position of the run exactly once, and the cache holds the stored keys |
| BlockArrayProperties.TrackingCacheLength | out/BuilderTools/src/czechpmdevs/buildertools/blockstorage/BlockArray.php:71 | wherever the cursor stands, while the cache mirrors the stored keys, it holds 8 bytes per accepted record |
| BlockArrayProperties.ReadNextKeepsTracking | out/BuilderTools/src/czechpmdevs/buildertools/blockstorage/BlockArray.php:91-98 | readNext only moves the cursor, so a detecting array keeps its cache mirroring all stored records, read ones included, and a later addBlock still filters them |
| BlockArrayProperties.TranslatedBlocks | out/BuilderTools/src/czechpmdevs/buildertools/blockstorage/BlockArray.php:141-152 | the array addVector3 builds decodes to the source's unread blocks, each moved by v, with id and meta unchanged |

## Left out

- `Level::blockHash` / `Level::getBlockXYZ`: the level's codec is not part of this model. It is the parameter `Codec`, and its round trip is the assumption `Lawful`, not a verified implementation. `Codec` is total: a coordinate the level's codec rejects is not modelled. Neither is the failure that would then reach the caller of `readNext` or `addVector3`. In particular, `addVector3` has already advanced its source's cursor before it calls `Level::blockHash`. If that call fails, the source is left with its cursor mid-buffer instead of reset to 0, which `AddVector3`'s `source == a.(offset := 0)` does not cover.
- `pack("q")` uses the machine's byte order. The model fixes little-endian.
- `Vector3::ceil()` and float coordinates: the displacement of `addVector3`/`subtractVector3` is an integer vector, so the ceiling is the identity and is not modelled.
- `getSizeData` / `BlockArraySizeData`: the bounding-box collaborator is not part of this model. The array only builds it on the first call and caches it, even when the buffer changes later.
- `setLevel` / `getLevel`: a plain reference to the world object, with no logic of its own.
- The generator protocol of `read`: suspension between yields and an early `break` by the consumer are not modelled. `Read` is the fully consumed traversal: the yielded blocks plus the final state.
- The `?? 0` fallback after `unpack` in `readNext` and `addVector3` fires only when fewer than 8 bytes follow `offset + 2`: a cursor off a record boundary, a partial trailing record, or `readNext` called at the end of the buffer. `Valid` (whole records, cursor on a record boundary) and the `HasNext` precondition of `ReadNext` rule all of these out.
- `size()` on a buffer whose length is not a multiple of 10 would return a float, which the declared int return type rejects. `Size` requires whole records.
- `BuilderToolsAsyncTask`: scheduler and thread plumbing (worker execution, completion callback) is not part of this model.
- TranslatedBlocks: the decoded result is stated only when every moved position lies in the codec's domain. Outside the domain, the byte-level result is still given by `AddVector3` and `TranslateAllRecord`.
- AddBlockAppendsUnread, ReadBackAdded, InsertionOrder, DetectionStoresEachPositionOnce: the positions must lie in the codec's domain, because positions are compared through `Lawful`.
