/**
 The fixed 10-byte record of a block array: byte 0 is the block id, byte 1
 the block meta, bytes 2..9 the packed position key. A buffer whose length
 is a multiple of ten is read as the sequence of its records.
 */
module Records {
  import opened LittleEndian
  import opened Position

  /** One block edit: where, which block, which variant. */
  datatype Block = Block(pos: Pos, id: int, meta: int)

  /** The record `addBlock` appends: `chr(id) . chr(meta) . pack("q", key)`. */
  function EncodeRecord(id: int, meta: int, key: Int64): (r: seq<Byte>)
    ensures |r| == 10
  {
    [id % 256, meta % 256] + Pack(key)
  }

  /** The k-th record of a buffer. */
  function RecordAt(buf: seq<Byte>, k: nat): (r: seq<Byte>)
    requires 10 * k + 10 <= |buf|
    ensures |r| == 10
  {
    buf[10 * k..10 * k + 10]
  }

  /** The eight key bytes of a record. */
  function KeyOf(rec: seq<Byte>): (r: seq<Byte>)
    requires |rec| == 10
    ensures |r| == 8
  {
    rec[2..10]
  }

  /** What `readNext` makes of one record: `ord` of the first two bytes, the position of the key. */
  function DecodeRecord(rec: seq<Byte>, c: Codec): Block
    requires |rec| == 10
  {
    Block(c.unhash(Unpack(KeyOf(rec))), rec[0], rec[1])
  }

  /** Decoding an encoded record gives back the id and meta modulo 256 and the position. */
  lemma DecodeEncode(c: Codec, p: Pos, id: int, meta: int)
    requires Lawful(c) && c.inDomain(p)
    ensures DecodeRecord(EncodeRecord(id, meta, c.hash(p)), c) == Block(p, id % 256, meta % 256)
  {
    var rec := EncodeRecord(id, meta, c.hash(p));
    assert KeyOf(rec) == Pack(c.hash(p));
    UnpackPack(c.hash(p));
  }

  /** The key bytes of an encoded record are the packed key. */
  lemma KeyOfEncode(id: int, meta: int, key: Int64)
    ensures KeyOf(EncodeRecord(id, meta, key)) == Pack(key)
  {
  }

  /** Cutting the first record off a buffer shifts the record numbering by one. */
  lemma RecordAtTail(buf: seq<Byte>, k: nat)
    requires 10 * k + 20 <= |buf|
    ensures RecordAt(buf[10..], k) == RecordAt(buf, k + 1)
  {
  }

  /** The record whose end is the buffer's end is the buffer's last ten bytes. */
  lemma LastRecord(buf: seq<Byte>, k: nat)
    requires 10 * k + 10 == |buf|
    ensures RecordAt(buf, k) == buf[|buf| - 10..]
  {
  }

  /** The blocks of a buffer, in order. */
  function DecodeAll(buf: seq<Byte>, c: Codec): (r: seq<Block>)
    requires |buf| % 10 == 0
    ensures |r| == |buf| / 10
    ensures forall k :: 0 <= k < |r| ==> r[k] == DecodeRecord(RecordAt(buf, k), c)
    decreases |buf|
  {
    if |buf| == 0 then []
    else
      var rest := DecodeAll(buf[10..], c);
      assert forall k :: 0 <= k < |rest| ==> RecordAt(buf[10..], k) == RecordAt(buf, k + 1);
      [DecodeRecord(buf[..10], c)] + rest
  }

  /** Decoding a concatenation decodes each part. */
  lemma DecodeAllAppend(a: seq<Byte>, b: seq<Byte>, c: Codec)
    requires |a| % 10 == 0 && |b| % 10 == 0
    ensures DecodeAll(a + b, c) == DecodeAll(a, c) + DecodeAll(b, c)
  {
    var l, r := DecodeAll(a + b, c), DecodeAll(a, c) + DecodeAll(b, c);
    forall k | 0 <= k < |l|
      ensures l[k] == r[k]
    {
      if k < |a| / 10 {
        assert RecordAt(a + b, k) == RecordAt(a, k);
      } else {
        assert RecordAt(a + b, k) == RecordAt(b, k - |a| / 10);
      }
    }
  }

  /** The keys of a buffer's records, concatenated in order: what a duplicate cache holds. */
  function Keys(buf: seq<Byte>): (r: seq<Byte>)
    requires |buf| % 10 == 0
    ensures |r| == 8 * (|buf| / 10)
    decreases |buf|
  {
    if |buf| == 0 then [] else Keys(buf[..|buf| - 10]) + KeyOf(buf[|buf| - 10..])
  }

  /** Appending a record appends its key to the keys. */
  lemma KeysAppend(buf: seq<Byte>, rec: seq<Byte>)
    requires |buf| % 10 == 0 && |rec| == 10
    ensures Keys(buf + rec) == Keys(buf) + KeyOf(rec)
  {
    assert (buf + rec)[..|buf|] == buf && (buf + rec)[|buf|..] == rec;
  }

  /** The k-th slot of the keys is the key of the k-th record. */
  lemma {:induction false} KeysSlot(buf: seq<Byte>, k: nat)
    requires |buf| % 10 == 0 && 10 * k + 10 <= |buf|
    ensures 8 * k + 8 <= |Keys(buf)| && Slot(Keys(buf), k) == KeyOf(RecordAt(buf, k))
    decreases |buf|
  {
    var init, last := buf[..|buf| - 10], buf[|buf| - 10..];
    var front := Keys(init);
    assert Keys(buf) == front + KeyOf(last);
    if 10 * k + 10 == |buf| {
      assert |init| == 10 * k && |front| == 8 * k;
      LastRecord(buf, k);
      assert Slot(Keys(buf), k) == KeyOf(last);
    } else {
      KeysSlot(init, k);
      assert Slot(Keys(buf), k) == Slot(front, k);
      assert RecordAt(init, k) == RecordAt(buf, k);
    }
  }

  /**
   What `addVector3` makes of one record: id and meta bytes copied as they
   are, the position decoded, shifted by v and encoded again.
   */
  function TranslateRecord(rec: seq<Byte>, c: Codec, v: Pos): (r: seq<Byte>)
    requires |rec| == 10
    ensures |r| == 10
  {
    [rec[0], rec[1]] + Pack(c.hash(Add(c.unhash(Unpack(KeyOf(rec))), v)))
  }

  /** Every record of a buffer translated, in order. */
  function TranslateAll(buf: seq<Byte>, c: Codec, v: Pos): (r: seq<Byte>)
    requires |buf| % 10 == 0
    ensures |r| == |buf|
    decreases |buf|
  {
    if |buf| == 0 then [] else TranslateAll(buf[..|buf| - 10], c, v) + TranslateRecord(buf[|buf| - 10..], c, v)
  }

  /** Translating a buffer with one more record appends that record translated. */
  lemma TranslateAllAppend(buf: seq<Byte>, rec: seq<Byte>, c: Codec, v: Pos)
    requires |buf| % 10 == 0 && |rec| == 10
    ensures TranslateAll(buf + rec, c, v) == TranslateAll(buf, c, v) + TranslateRecord(rec, c, v)
  {
    assert (buf + rec)[..|buf|] == buf && (buf + rec)[|buf|..] == rec;
  }

  /** The k-th record of a translated buffer is the k-th record translated. */
  lemma {:induction false} TranslateAllRecord(buf: seq<Byte>, c: Codec, v: Pos, k: nat)
    requires |buf| % 10 == 0 && 10 * k + 10 <= |buf|
    ensures RecordAt(TranslateAll(buf, c, v), k) == TranslateRecord(RecordAt(buf, k), c, v)
    decreases |buf|
  {
    var init, last := buf[..|buf| - 10], buf[|buf| - 10..];
    var front := TranslateAll(init, c, v);
    assert TranslateAll(buf, c, v) == front + TranslateRecord(last, c, v);
    if 10 * k + 10 == |buf| {
      LastRecord(buf, k);
      assert |front| == 10 * k;
      assert RecordAt(TranslateAll(buf, c, v), k) == TranslateRecord(last, c, v);
    } else {
      TranslateAllRecord(init, c, v, k);
      assert RecordAt(TranslateAll(buf, c, v), k) == RecordAt(front, k);
      assert RecordAt(init, k) == RecordAt(buf, k);
    }
  }

  /** Each block shifted by v, id and meta untouched. */
  function Shift(bs: seq<Block>, v: Pos): (r: seq<Block>)
    ensures |r| == |bs|
  {
    seq(|bs|, i requires 0 <= i < |bs| => bs[i].(pos := Add(bs[i].pos, v)))
  }

  /**
   Decoding a translated buffer gives the original blocks shifted by v, as
   long as every shifted position lies in the codec's domain.
   */
  lemma TranslateAllDecodes(buf: seq<Byte>, c: Codec, v: Pos)
    requires |buf| % 10 == 0 && Lawful(c)
    requires forall k :: 0 <= k < |buf| / 10 ==> c.inDomain(Add(DecodeAll(buf, c)[k].pos, v))
    ensures DecodeAll(TranslateAll(buf, c, v), c) == Shift(DecodeAll(buf, c), v)
  {
    var l, r := DecodeAll(TranslateAll(buf, c, v), c), Shift(DecodeAll(buf, c), v);
    forall k | 0 <= k < |l|
      ensures l[k] == r[k]
    {
      var rec := RecordAt(buf, k);
      var q := Add(c.unhash(Unpack(KeyOf(rec))), v);
      assert c.inDomain(q);
      var out := TranslateRecord(rec, c, v);
      TranslateAllRecord(buf, c, v, k);
      assert KeyOf(out) == Pack(c.hash(q));
      UnpackPack(c.hash(q));
    }
  }
}
