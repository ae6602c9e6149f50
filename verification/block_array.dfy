/**
 `BlockArray`: block edits packed as 10-byte records in one byte string,
 read through a cursor, with an optional duplicate-position filter. The
 object is modelled as an immutable state; each operation returns the new
 state (and what it yields).
 */
module BlockArrays {
  import opened LittleEndian
  import opened Position
  import opened DuplicateDetector
  import opened Records

  /**
   The fields of a `BlockArray`: the record `buffer`, the read cursor
   `offset`, and from `DuplicateBlockDetector` the `detect` flag and the
   key `cache`.
   */
  datatype BlockArray = BlockArray(buffer: seq<Byte>, offset: nat, detect: bool, cache: seq<Byte>)

  /** The layout invariant: whole records only, cursor on a record boundary inside the buffer. */
  predicate Valid(a: BlockArray) {
    |a.buffer| % 10 == 0 && a.offset % 10 == 0 && a.offset <= |a.buffer|
  }

  /** `new BlockArray($detectDuplicates)`. */
  function New(detectDuplicates: bool): (r: BlockArray)
    ensures Valid(r) && Size(r) == 0 && r.cache == []
    ensures DetectingDuplicates(r) == detectDuplicates
  {
    BlockArray([], 0, detectDuplicates, [])
  }

  /** `detectingDuplicates()`. */
  function DetectingDuplicates(a: BlockArray): bool {
    a.detect
  }

  /** `size()`: the number of records stored, read or not. */
  function Size(a: BlockArray): (r: nat)
    requires |a.buffer| % 10 == 0
    ensures 10 * r == |a.buffer|
  {
    |a.buffer| / 10
  }

  /** The blocks not yet read: the records from the cursor to the end. */
  function Unread(a: BlockArray, c: Codec): seq<Block>
    requires Valid(a)
  {
    DecodeAll(a.buffer[a.offset..], c)
  }

  /** With detection on, the position's key is already in the cache, so `addBlock` drops the edit. */
  ghost predicate Filtered(a: BlockArray, c: Codec, p: Pos) {
    a.detect && AlignedMember(a.cache, Pack(c.hash(p)))
  }

  /** `addBlock($vector3, $id, $meta)`. */
  function AddBlock(a: BlockArray, c: Codec, p: Pos, id: int, meta: int): (r: BlockArray)
    ensures Filtered(a, c, p) ==> r == a
    ensures !Filtered(a, c, p) ==>
      && r.buffer == a.buffer + EncodeRecord(id, meta, c.hash(p))
      && r.offset == a.offset && r.detect == a.detect
      && r.cache == (if a.detect then a.cache + Pack(c.hash(p)) else a.cache)
    ensures Valid(a) ==> Valid(r)
    ensures |a.buffer| % 10 == 0 ==> Size(r) == Size(a) + (if Filtered(a, c, p) then 0 else 1)
    ensures a.detect ==> |r.cache| - |a.cache| == 8 * (|r.buffer| - |a.buffer|) / 10
  {
    var key := Pack(c.hash(p));
    if a.detect && IsDuplicate(a.cache, key) then a
    else
      a.(buffer := a.buffer + EncodeRecord(id, meta, c.hash(p)),
         cache := if a.detect then a.cache + key else a.cache)
  }

  /** `hasNext()`. */
  function HasNext(a: BlockArray): bool {
    a.offset + 10 <= |a.buffer|
  }

  /** `readNext(...)`, which the caller may only call when `hasNext()` holds. */
  function ReadNext(a: BlockArray, c: Codec): (r: (Block, BlockArray))
    requires HasNext(a)
    ensures r.1 == a.(offset := a.offset + 10)
    ensures r.0.id == a.buffer[a.offset] && r.0.meta == a.buffer[a.offset + 1]
    ensures r.0.pos == c.unhash(Unpack(a.buffer[a.offset + 2..a.offset + 10]))
    ensures Valid(a) ==> Valid(r.1) && Unread(a, c) == [r.0] + Unread(r.1, c)
  {
    var rec := a.buffer[a.offset..a.offset + 10];
    assert a.buffer[a.offset..][10..] == a.buffer[a.offset + 10..];
    assert a.buffer[a.offset..][..10] == rec;
    assert KeyOf(rec) == a.buffer[a.offset + 2..a.offset + 10];
    (DecodeRecord(rec, c), a.(offset := a.offset + 10))
  }

  /** `cleanGarbage()`: drop the records already read. */
  function CleanGarbage(a: BlockArray): (r: BlockArray)
    requires a.offset <= |a.buffer|
    ensures r.offset == 0 && r.detect == a.detect && r.cache == a.cache
    ensures |r.buffer| == |a.buffer| - a.offset
    ensures Valid(a) ==> Valid(r) && Size(r) == Size(a) - a.offset / 10
    ensures Valid(a) ==> forall c :: Unread(r, c) == Unread(a, c)
  {
    a.(buffer := a.buffer[a.offset..], offset := 0)
  }

  /** `cancelDuplicateDetection()`. */
  function CancelDuplicateDetection(a: BlockArray): (r: BlockArray)
    ensures !DetectingDuplicates(r) && r.cache == []
    ensures r.buffer == a.buffer && r.offset == a.offset
  {
    a.(detect := false, cache := [])
  }

  /**
   The `while` loop of `read($cleanGarbage)` run to the end: read the next
   record, yield it, and in destructive mode drop it at once.
   */
  function ReadLoop(a: BlockArray, c: Codec, clean: bool): (r: (seq<Block>, BlockArray))
    requires Valid(a)
    ensures r.0 == Unread(a, c)
    ensures Valid(r.1) && r.1.detect == a.detect && r.1.cache == a.cache
    ensures clean && a.offset < |a.buffer| ==> r.1.buffer == [] && r.1.offset == 0
    ensures clean && a.offset == |a.buffer| ==> r.1 == a
    ensures !clean ==> r.1 == a.(offset := |a.buffer|)
    decreases |a.buffer| - a.offset
  {
    if a.offset < |a.buffer| then
      var (b, next) := ReadNext(a, c);
      var after := if clean then CleanGarbage(next) else next;
      var (rest, last) := ReadLoop(after, c, clean);
      ([b] + rest, last)
    else
      ([], a)
  }

  /**
   `read($cleanGarbage)` consumed to the end: the blocks it yields and the
   state it leaves. Destructive mode empties the buffer once it has read
   anything; restartable mode rewinds the cursor to the start.
   */
  function Read(a: BlockArray, c: Codec, clean: bool): (r: (seq<Block>, BlockArray))
    requires Valid(a)
    ensures r.0 == Unread(a, c)
    ensures clean && a.offset < |a.buffer| ==> r.1 == a.(buffer := [], offset := 0)
    ensures clean && a.offset == |a.buffer| ==> r.1 == a
    ensures !clean ==> r.1 == a.(offset := 0)
  {
    var (blocks, last) := ReadLoop(a, c, clean);
    (blocks, if clean then last else last.(offset := 0))
  }

  /**
   s holds exactly n records. A solver helper for the `addVector3` loop:
   the second conjunct follows from the first, but stating it here keeps the
   modulus out of the loop invariant, where it makes the proof too costly.
   */
  ghost predicate WholeRecords(s: seq<Byte>, n: nat) {
    |s| == 10 * n && |s| % 10 == 0
  }

  /** Establishes WholeRecords from the length alone. */
  lemma WholeRecordsOf(s: seq<Byte>, n: nat)
    requires |s| == 10 * n
    ensures WholeRecords(s, n)
  {
  }

  /** One turn of the `addVector3` loop extends the translated prefix by the record at `from + 10 * n`. */
  lemma TranslateStep(buf: seq<Byte>, from: nat, n: nat, c: Codec, v: Pos)
    requires from + 10 * n + 10 <= |buf|
    ensures TranslateAll(buf[from..from + 10 * n + 10], c, v)
         == TranslateAll(buf[from..from + 10 * n], c, v) + [buf[from + 10 * n]] + [buf[from + 10 * n + 1]]
            + Pack(c.hash(Add(c.unhash(Unpack(buf[from + 10 * n + 2..from + 10 * n + 10])), v)))
  {
    var start := from + 10 * n;
    var rec := buf[start..start + 10];
    assert KeyOf(rec) == buf[start + 2..start + 10];
    assert buf[from..start + 10] == buf[from..start] + rec;
    TranslateAllAppend(buf[from..start], rec, c, v);
  }

  /** The `while` loop of `addVector3`: every record from byte `from` on, translated. */
  method TranslateFrom(buf: seq<Byte>, from: nat, ghost count: nat, c: Codec, v: Pos) returns (out: seq<Byte>)
    requires from + 10 * count == |buf|
    ensures |buf[from..]| % 10 == 0 && out == TranslateAll(buf[from..], c, v)
  {
    var len := |buf|;
    var offset := from;
    out := [];
    ghost var done := 0;
    while offset < len
      invariant done <= count && offset == from + 10 * done
      invariant WholeRecords(buf[from..offset], done)
      invariant out == TranslateAll(buf[from..offset], c, v)
      decreases len - offset
    {
      TranslateStep(buf, from, done, c, v);
      var id, meta := buf[offset], buf[offset + 1];
      var p := c.unhash(Unpack(buf[offset + 2..offset + 10]));
      out := out + [id] + [meta] + Pack(c.hash(Add(p, v)));
      offset := offset + 10;
      done := done + 1;
      WholeRecordsOf(buf[from..offset], done);
    }
    assert buf[from..offset] == buf[from..];
  }

  /**
   `addVector3($v)` for an integer v: a fresh array, detection off, holding
   every record from the cursor on with its position shifted by v. The
   source keeps its buffer and has its cursor reset to 0.
   */
  method AddVector3(a: BlockArray, c: Codec, v: Pos) returns (result: BlockArray, source: BlockArray)
    requires Valid(a)
    ensures result == BlockArray(TranslateAll(a.buffer[a.offset..], c, v), 0, false, [])
    ensures source == a.(offset := 0)
    ensures Valid(result) && Size(result) == Size(a) - a.offset / 10
  {
    ghost var count := (|a.buffer| - a.offset) / 10;
    var out := TranslateFrom(a.buffer, a.offset, count, c, v);
    result := BlockArray(out, 0, false, []);
    source := a.(offset := 0);
  }

  /** `subtractVector3($v)`: `addVector3` with the negated vector. */
  method SubtractVector3(a: BlockArray, c: Codec, v: Pos) returns (result: BlockArray, source: BlockArray)
    requires Valid(a)
    ensures result == BlockArray(TranslateAll(a.buffer[a.offset..], c, Negate(v)), 0, false, [])
    ensures source == a.(offset := 0)
  {
    result, source := AddVector3(a, c, Negate(v));
  }
}
