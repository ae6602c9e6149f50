/**
 Properties that relate several `BlockArray` operations: reading back what
 was added, the two traversal modes, the duplicate filter over a whole run
 of insertions, and translation seen through decoding.
 */
module BlockArrayProperties {
  import opened LittleEndian
  import opened Position
  import opened DuplicateDetector
  import opened Records
  import opened BlockArrays

  /** A block as it reads back: id and meta truncated to a byte by `chr`. */
  function Stored(e: Block): (r: Block)
    ensures 0 <= r.id < 256 && 0 <= r.meta < 256
  {
    Block(e.pos, e.id % 256, e.meta % 256)
  }

  /** The blocks of a run of edits as they read back. */
  function StoredAll(edits: seq<Block>): (r: seq<Block>)
    ensures |r| == |edits|
  {
    seq(|edits|, i requires 0 <= i < |edits| => Stored(edits[i]))
  }

  /** Every position of the run lies in the codec's domain. */
  ghost predicate AllInDomain(c: Codec, edits: seq<Block>) {
    forall i :: 0 <= i < |edits| ==> c.inDomain(edits[i].pos)
  }

  /** The producer's loop: `addBlock` called once per edit, in order. */
  function AddAll(a: BlockArray, c: Codec, edits: seq<Block>): BlockArray
    decreases |edits|
  {
    if |edits| == 0 then a
    else
      var e := edits[|edits| - 1];
      AddBlock(AddAll(a, c, edits[..|edits| - 1]), c, e.pos, e.id, e.meta)
  }

  /** The positions of a sequence of blocks. */
  ghost function PositionsOf(bs: seq<Block>): set<Pos> {
    set i | 0 <= i < |bs| :: bs[i].pos
  }

  /** `hasNext()` holds exactly when a record is left to read, which is also the loop test of `read`. */
  lemma HasNextIffUnread(a: BlockArray, c: Codec)
    requires Valid(a)
    ensures HasNext(a) <==> a.offset < |a.buffer|
    ensures HasNext(a) <==> |Unread(a, c)| > 0
  {
  }

  /** An accepted `addBlock` appends the stored block to the blocks still to be read. */
  lemma AddBlockAppendsUnread(a: BlockArray, c: Codec, p: Pos, id: int, meta: int)
    requires Valid(a) && Lawful(c) && c.inDomain(p) && !Filtered(a, c, p)
    ensures Unread(AddBlock(a, c, p, id, meta), c) == Unread(a, c) + [Block(p, id % 256, meta % 256)]
  {
    var r := AddBlock(a, c, p, id, meta);
    assert r.buffer[r.offset..] == a.buffer[a.offset..] + EncodeRecord(id, meta, c.hash(p));
    UnreadTailHasWholeRecords(a);
    EncodedDecodesAppended(a.buffer[a.offset..], c, p, id, meta);
  }

  /** What is left after an aligned cursor is whole records. */
  lemma UnreadTailHasWholeRecords(a: BlockArray)
    requires Valid(a)
    ensures |a.buffer[a.offset..]| % 10 == 0
  {
  }

  /** Decoding a buffer with an encoded record appended gives one more block, the edit. */
  lemma EncodedDecodesAppended(buf: seq<Byte>, c: Codec, p: Pos, id: int, meta: int)
    requires |buf| % 10 == 0 && Lawful(c) && c.inDomain(p)
    ensures DecodeAll(buf + EncodeRecord(id, meta, c.hash(p)), c) == DecodeAll(buf, c) + [Block(p, id % 256, meta % 256)]
  {
    var rec := EncodeRecord(id, meta, c.hash(p));
    DecodeAllAppend(buf, rec, c);
    DecodeEncode(c, p, id, meta);
    assert RecordAt(rec, 0) == rec;
    assert DecodeAll(rec, c) == [DecodeRecord(rec, c)];
  }

  /** Reading the record just added, with the cursor on it, gives the edit back. */
  lemma ReadBackAdded(a: BlockArray, c: Codec, p: Pos, id: int, meta: int)
    requires Valid(a) && Lawful(c) && c.inDomain(p) && !Filtered(a, c, p)
    ensures HasNext(AddBlock(a, c, p, id, meta).(offset := |a.buffer|))
    ensures ReadNext(AddBlock(a, c, p, id, meta).(offset := |a.buffer|), c).0 == Block(p, id % 256, meta % 256)
  {
    var r := AddBlock(a, c, p, id, meta).(offset := |a.buffer|);
    var rec := EncodeRecord(id, meta, c.hash(p));
    assert r.buffer[r.offset..r.offset + 10] == rec;
    assert KeyOf(rec) == r.buffer[r.offset + 2..r.offset + 10];
    DecodeEncode(c, p, id, meta);
  }

  /** An aligned key match keeps no key twice: a detecting `addBlock` preserves distinct keys. */
  lemma AddBlockKeepsKeysDistinct(a: BlockArray, c: Codec, p: Pos, id: int, meta: int)
    requires a.detect && |a.cache| % 8 == 0 && DistinctKeys(a.cache)
    ensures |AddBlock(a, c, p, id, meta).cache| % 8 == 0
    ensures DistinctKeys(AddBlock(a, c, p, id, meta).cache)
  {
    var r := AddBlock(a, c, p, id, meta);
    if !Filtered(a, c, p) {
      var key := Pack(c.hash(p));
      var n := |a.cache| / 8;
      assert Slot(r.cache, n) == key;
      forall k: nat | 8 * k + 8 <= |a.cache|
        ensures Slot(r.cache, k) == Slot(a.cache, k)
      {
      }
      forall i: nat, j: nat | i < j && 8 * j + 8 <= |r.cache|
        ensures Slot(r.cache, i) != Slot(r.cache, j)
      {
        if j == n {
          assert Slot(a.cache, i) != key;
        }
      }
    }
  }

  /** Once detection is cancelled, `addBlock` always appends and the cache stays empty. */
  lemma CancelledNeverFilters(a: BlockArray, c: Codec, p: Pos, id: int, meta: int)
    requires Valid(a)
    ensures var b := CancelDuplicateDetection(a);
      && Unread(b, c) == Unread(a, c)
      && Size(AddBlock(b, c, p, id, meta)) == Size(a) + 1
      && AddBlock(b, c, p, id, meta).cache == []
  {
  }

  /**
   `read(false)` leaves the buffer as it was and rewinds the cursor, so a
   second `read(false)` yields every record of the buffer, the first call's
   blocks among them as its tail.
   */
  lemma ReadRestartable(a: BlockArray, c: Codec)
    requires Valid(a)
    ensures var (first, a1) := Read(a, c, false);
      && a1.buffer == a.buffer && a1.offset == 0 && Size(a1) == Size(a)
      && Read(a1, c, false) == (DecodeAll(a.buffer, c), a1)
      && DecodeAll(a.buffer, c) == DecodeAll(a.buffer[..a.offset], c) + first
  {
    assert a.buffer == a.buffer[..a.offset] + a.buffer[a.offset..];
    DecodeAllAppend(a.buffer[..a.offset], a.buffer[a.offset..], c);
    var (first, a1) := Read(a, c, false);
    assert a1.buffer[a1.offset..] == a.buffer;
  }

  /**
   `read(true)` is one-shot: after it has yielded anything the buffer is
   empty and the cursor at 0, and a second call yields nothing.
   */
  lemma ReadDestructiveOneShot(a: BlockArray, c: Codec)
    requires Valid(a)
    ensures var (first, a1) := Read(a, c, true);
      && first == Unread(a, c)
      && (|first| > 0 ==> a1.buffer == [] && a1.offset == 0 && Size(a1) == 0)
      && Read(a1, c, true).0 == []
  {
    var (first, a1) := Read(a, c, true);
    if a.offset == |a.buffer| {
      assert a1 == a;
    }
  }

  /**
   Reading one of two records and collecting garbage leaves one record,
   and reading it gives the second block inserted.
   */
  lemma CleanGarbageAfterOneRead(c: Codec, e1: Block, e2: Block)
    requires Lawful(c) && c.inDomain(e1.pos) && c.inDomain(e2.pos)
    ensures var a := AddBlock(AddBlock(New(false), c, e1.pos, e1.id, e1.meta), c, e2.pos, e2.id, e2.meta);
      var g := CleanGarbage(ReadNext(a, c).1);
      && ReadNext(a, c).0 == Stored(e1)
      && Size(g) == 1 && Unread(g, c) == [Stored(e2)]
  {
    var a0 := New(false);
    var a1 := AddBlock(a0, c, e1.pos, e1.id, e1.meta);
    var a := AddBlock(a1, c, e2.pos, e2.id, e2.meta);
    AddBlockAppendsUnread(a0, c, e1.pos, e1.id, e1.meta);
    AddBlockAppendsUnread(a1, c, e2.pos, e2.id, e2.meta);
    assert Unread(a0, c) == [];
    assert Unread(a, c) == [Stored(e1), Stored(e2)];
    var (b, next) := ReadNext(a, c);
    assert [b] + Unread(next, c) == [Stored(e1), Stored(e2)];
    assert ([b] + Unread(next, c))[0] == b && ([b] + Unread(next, c))[1..] == Unread(next, c);
    var g := CleanGarbage(next);
    assert Unread(g, c) == Unread(next, c);
    assert Size(a) == 2 && next.offset == 10;
  }

  /** With detection on the same position twice is stored once; with detection off, twice. */
  lemma SamePositionTwice(c: Codec, p: Pos, id1: int, meta1: int, id2: int, meta2: int)
    ensures Size(AddBlock(AddBlock(New(true), c, p, id1, meta1), c, p, id2, meta2)) == 1
    ensures Size(AddBlock(AddBlock(New(false), c, p, id1, meta1), c, p, id2, meta2)) == 2
  {
    var a := AddBlock(New(true), c, p, id1, meta1);
    assert a.cache == [] + Pack(c.hash(p));
    assert Slot(a.cache, 0) == Pack(c.hash(p));
  }

  /** Without detection every edit is stored, in the order given. */
  lemma {:induction false} InsertionOrder(a: BlockArray, c: Codec, edits: seq<Block>)
    requires Valid(a) && !a.detect && Lawful(c) && AllInDomain(c, edits)
    ensures Valid(AddAll(a, c, edits))
    ensures Unread(AddAll(a, c, edits), c) == Unread(a, c) + StoredAll(edits)
    ensures Size(AddAll(a, c, edits)) == Size(a) + |edits|
    decreases |edits|
  {
    if |edits| > 0 {
      var init, e := edits[..|edits| - 1], edits[|edits| - 1];
      InsertionOrder(a, c, init);
      var b := AddAll(a, c, init);
      assert b.detect == a.detect by {
        AddAllKeepsFlag(a, c, init);
      }
      AddBlockAppendsUnread(b, c, e.pos, e.id, e.meta);
      assert StoredAll(edits) == StoredAll(init) + [Stored(e)];
    }
  }

  lemma {:induction false} AddAllKeepsFlag(a: BlockArray, c: Codec, edits: seq<Block>)
    ensures AddAll(a, c, edits).detect == a.detect
    ensures AddAll(a, c, edits).offset == a.offset
    decreases |edits|
  {
    if |edits| > 0 {
      AddAllKeepsFlag(a, c, edits[..|edits| - 1]);
    }
  }

  /** Every record's key is the hash of its decoded position, which lies in the codec's domain. */
  ghost predicate Canonical(buf: seq<Byte>, c: Codec)
    requires |buf| % 10 == 0
  {
    forall k :: 0 <= k < |buf| / 10 ==>
      && c.inDomain(DecodeAll(buf, c)[k].pos)
      && KeyOf(RecordAt(buf, k)) == Pack(c.hash(DecodeAll(buf, c)[k].pos))
  }

  /** No position occurs twice. */
  ghost predicate DistinctPositions(bs: seq<Block>) {
    forall i, j :: 0 <= i < j < |bs| ==> bs[i].pos != bs[j].pos
  }

  /**
   The state a detecting array keeps under `addBlock`, wherever its cursor
   stands: the cache is the keys of all stored records, read or not, each
   key the hash of its record's position.
   */
  ghost predicate Tracking(a: BlockArray, c: Codec) {
    && Valid(a) && a.detect
    && a.cache == Keys(a.buffer) && DistinctKeys(a.cache)
    && Canonical(a.buffer, c)
  }

  /** In a tracking array, the filter drops a position exactly when a stored record has it. */
  lemma FilteredIffStored(a: BlockArray, c: Codec, p: Pos)
    requires Tracking(a, c) && Lawful(c) && c.inDomain(p)
    ensures Filtered(a, c, p) <==> p in PositionsOf(DecodeAll(a.buffer, c))
  {
    var bs := DecodeAll(a.buffer, c);
    var key := Pack(c.hash(p));
    if Filtered(a, c, p) {
      var k: nat :| 8 * k + 8 <= |a.cache| && Slot(a.cache, k) == key;
      KeysSlot(a.buffer, k);
      PackInjective(c.hash(bs[k].pos), c.hash(p));
      HashInjective(c, bs[k].pos, p);
      assert bs[k].pos == p;
    }
    if p in PositionsOf(bs) {
      var k :| 0 <= k < |bs| && bs[k].pos == p;
      KeysSlot(a.buffer, k);
      assert Slot(a.cache, k) == key;
    }
  }

  /** Appending the record of an in-domain position keeps the keys canonical. */
  lemma CanonicalAppend(buf: seq<Byte>, c: Codec, p: Pos, id: int, meta: int)
    requires |buf| % 10 == 0 && Canonical(buf, c) && Lawful(c) && c.inDomain(p)
    ensures Canonical(buf + EncodeRecord(id, meta, c.hash(p)), c)
  {
    var rec := EncodeRecord(id, meta, c.hash(p));
    var r := buf + rec;
    var n := |buf| / 10;
    EncodedDecodesAppended(buf, c, p, id, meta);
    KeyOfEncode(id, meta, c.hash(p));
    var bs, rs := DecodeAll(buf, c), DecodeAll(r, c);
    forall k | 0 <= k < |r| / 10
      ensures c.inDomain(rs[k].pos) && KeyOf(RecordAt(r, k)) == Pack(c.hash(rs[k].pos))
    {
      if k < n {
        assert RecordAt(r, k) == RecordAt(buf, k);
        assert rs[k] == bs[k];
      } else {
        assert RecordAt(r, k) == rec;
      }
    }
  }

  lemma PositionsAppend(bs: seq<Block>, b: Block)
    ensures PositionsOf(bs + [b]) == PositionsOf(bs) + {b.pos}
  {
    var rs := bs + [b];
    forall q | q in PositionsOf(rs) ensures q in PositionsOf(bs) + {b.pos} {
      var i :| 0 <= i < |rs| && rs[i].pos == q;
      if i < |bs| { assert bs[i].pos == q; }
    }
    assert rs[|bs|].pos == b.pos;
    forall q | q in PositionsOf(bs) ensures q in PositionsOf(rs) {
      var i :| 0 <= i < |bs| && bs[i].pos == q;
      assert rs[i].pos == q;
    }
  }

  lemma DistinctAppend(bs: seq<Block>, b: Block)
    requires DistinctPositions(bs) && b.pos !in PositionsOf(bs)
    ensures DistinctPositions(bs + [b])
  {
    var rs := bs + [b];
    forall i, j | 0 <= i < j < |rs|
      ensures rs[i].pos != rs[j].pos
    {
      if j == |bs| {
        assert bs[i].pos in PositionsOf(bs);
      }
    }
  }

  /** A detecting `addBlock` keeps an array tracking; it stores the position once, if it was new. */
  lemma AddBlockKeepsTracking(a: BlockArray, c: Codec, p: Pos, id: int, meta: int)
    requires Tracking(a, c) && Lawful(c) && c.inDomain(p)
    requires DistinctPositions(DecodeAll(a.buffer, c))
    ensures Tracking(AddBlock(a, c, p, id, meta), c)
    ensures PositionsOf(DecodeAll(AddBlock(a, c, p, id, meta).buffer, c)) == PositionsOf(DecodeAll(a.buffer, c)) + {p}
    ensures DistinctPositions(DecodeAll(AddBlock(a, c, p, id, meta).buffer, c))
  {
    FilteredIffStored(a, c, p);
    if !Filtered(a, c, p) {
      AcceptedKeepsTracking(a, c, p, id, meta);
    }
  }

  /** The accepted case of AddBlockKeepsTracking: the record and its key are appended. */
  lemma AcceptedKeepsTracking(a: BlockArray, c: Codec, p: Pos, id: int, meta: int)
    requires Tracking(a, c) && Lawful(c) && c.inDomain(p) && !Filtered(a, c, p)
    requires DistinctPositions(DecodeAll(a.buffer, c))
    ensures Tracking(AddBlock(a, c, p, id, meta), c)
    ensures PositionsOf(DecodeAll(AddBlock(a, c, p, id, meta).buffer, c)) == PositionsOf(DecodeAll(a.buffer, c)) + {p}
    ensures DistinctPositions(DecodeAll(AddBlock(a, c, p, id, meta).buffer, c))
  {
    var rec := EncodeRecord(id, meta, c.hash(p));
    var bs := DecodeAll(a.buffer, c);
    var b := Block(p, id % 256, meta % 256);
    FilteredIffStored(a, c, p);
    AddBlockKeepsKeysDistinct(a, c, p, id, meta);
    KeyOfEncode(id, meta, c.hash(p));
    KeysAppend(a.buffer, rec);
    CanonicalAppend(a.buffer, c, p, id, meta);
    EncodedDecodesAppended(a.buffer, c, p, id, meta);
    PositionsAppend(bs, b);
    DistinctAppend(bs, b);
  }

  lemma PositionsOfSnoc(edits: seq<Block>)
    requires |edits| > 0
    ensures PositionsOf(edits) == PositionsOf(edits[..|edits| - 1]) + {edits[|edits| - 1].pos}
  {
    PositionsAppend(edits[..|edits| - 1], edits[|edits| - 1]);
    assert edits[..|edits| - 1] + [edits[|edits| - 1]] == edits;
  }

  /**
   A run of insertions into a fresh detecting array stores every position
   of the run exactly once: the stored positions are pairwise distinct and
   are the positions of the edits.
   */
  lemma {:induction false} DetectionStoresEachPositionOnce(c: Codec, edits: seq<Block>)
    requires Lawful(c) && AllInDomain(c, edits)
    ensures Tracking(AddAll(New(true), c, edits), c)
    ensures PositionsOf(DecodeAll(AddAll(New(true), c, edits).buffer, c)) == PositionsOf(edits)
    ensures DistinctPositions(DecodeAll(AddAll(New(true), c, edits).buffer, c))
    decreases |edits|
  {
    if |edits| == 0 {
      assert PositionsOf(edits) == {};
      assert PositionsOf(DecodeAll([], c)) == {};
    } else {
      var init, e := edits[..|edits| - 1], edits[|edits| - 1];
      DetectionStoresEachPositionOnce(c, init);
      AddBlockKeepsTracking(AddAll(New(true), c, init), c, e.pos, e.id, e.meta);
      PositionsOfSnoc(edits);
    }
  }

  /**
   Stepping through a tracking array with `readNext` keeps it tracking: the
   cache still mirrors every stored record, so a later `addBlock` still
   filters against positions already read.
   */
  lemma ReadNextKeepsTracking(a: BlockArray, c: Codec)
    requires Tracking(a, c) && HasNext(a)
    ensures Tracking(ReadNext(a, c).1, c)
    ensures DecodeAll(ReadNext(a, c).1.buffer, c) == DecodeAll(a.buffer, c)
  {
  }

  /** The cache of a tracking array holds eight bytes per stored record. */
  lemma TrackingCacheLength(a: BlockArray, c: Codec)
    requires Tracking(a, c)
    ensures |a.cache| == 8 * Size(a)
  {
  }

  /**
   The array `addVector3` builds decodes to the source's unread blocks,
   each moved by v with id and meta unchanged, provided every moved
   position lies in the codec's domain.
   */
  lemma TranslatedBlocks(a: BlockArray, c: Codec, v: Pos)
    requires Valid(a) && Lawful(c)
    requires forall k :: 0 <= k < |Unread(a, c)| ==> c.inDomain(Add(Unread(a, c)[k].pos, v))
    ensures DecodeAll(TranslateAll(a.buffer[a.offset..], c, v), c) == Shift(Unread(a, c), v)
  {
    var rest := a.buffer[a.offset..];
    UnreadTailHasWholeRecords(a);
    assert Unread(a, c) == DecodeAll(rest, c);
    assert |rest| / 10 == |Unread(a, c)|;
    TranslateAllDecodes(rest, c, v);
  }
}
