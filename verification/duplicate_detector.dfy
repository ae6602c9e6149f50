/**
 The duplicate filter (`DuplicateBlockDetector`): the position keys accepted
 so far are kept concatenated in one byte string, and a new key is a
 duplicate when it occurs in that string at an offset that is a multiple of
 eight. A plain substring search is not enough, because the tail of one key
 followed by the head of the next can spell out a third key.
 */
module DuplicateDetector {
  import opened LittleEndian

  datatype Option<T> = None | Some(value: T)

  /** The needle occurs in the haystack starting at byte j. */
  predicate MatchAt(hay: seq<Byte>, needle: seq<Byte>, j: nat) {
    j + |needle| <= |hay| && hay[j..j + |needle|] == needle
  }

  /** `strpos(hay, needle, i)`: the first position at or after i where the needle occurs. */
  function StrPos(hay: seq<Byte>, needle: seq<Byte>, i: nat): (r: Option<nat>)
    requires i <= |hay|
    ensures r.Some? ==> i <= r.value && MatchAt(hay, needle, r.value)
    ensures r.Some? ==> forall j :: i <= j < r.value ==> !MatchAt(hay, needle, j)
    ensures r.None? ==> forall j :: i <= j ==> !MatchAt(hay, needle, j)
    decreases |hay| - i
  {
    if i + |needle| > |hay| then None
    else if hay[i..i + |needle|] == needle then Some(i)
    else StrPos(hay, needle, i + 1)
  }

  /** The key is one of the keys stored in the cache. */
  ghost predicate AlignedMember(cache: seq<Byte>, key: seq<Byte>) {
    exists k: nat :: 8 * k + 8 <= |cache| && Slot(cache, k) == key
  }

  /** No key is stored in the cache twice. */
  ghost predicate DistinctKeys(cache: seq<Byte>) {
    forall i: nat, j: nat :: i < j && 8 * j + 8 <= |cache| ==> Slot(cache, i) != Slot(cache, j)
  }

  /**
   The `for` loop of `isDuplicate` from loop index i: look for the key from
   byte i on; stop with true at an aligned match, otherwise bump i by one
   and search again.
   */
  function Scan(cache: seq<Byte>, key: seq<Byte>, i: nat): (r: bool)
    requires |key| == 8 && i <= |cache|
    ensures r <==> exists j: nat :: i <= j && j % 8 == 0 && MatchAt(cache, key, j)
    decreases |cache| - i
  {
    match StrPos(cache, key, i)
    case None => false
    case Some(j) => if j % 8 == 0 then true else Scan(cache, key, i + 1)
  }

  /** An aligned match of an eight-byte key is exactly a stored slot equal to it. */
  lemma AlignedMatchIsSlot(cache: seq<Byte>, key: seq<Byte>)
    requires |key| == 8
    ensures (exists j: nat :: j % 8 == 0 && MatchAt(cache, key, j)) <==> AlignedMember(cache, key)
  {
    if exists j: nat :: j % 8 == 0 && MatchAt(cache, key, j) {
      var j: nat :| j % 8 == 0 && MatchAt(cache, key, j);
      assert Slot(cache, j / 8) == key;
    }
    if AlignedMember(cache, key) {
      var k: nat :| 8 * k + 8 <= |cache| && Slot(cache, k) == key;
      assert (8 * k) % 8 == 0 && MatchAt(cache, key, 8 * k);
    }
  }

  /** `isDuplicate`: the key is stored in the cache at an aligned slot. */
  function IsDuplicate(cache: seq<Byte>, key: seq<Byte>): (r: bool)
    requires |key| == 8
    ensures r <==> AlignedMember(cache, key)
  {
    AlignedMatchIsSlot(cache, key);
    Scan(cache, key, 0)
  }

  /**
   Two stored keys whose bytes, read across the boundary between them,
   contain a third key: a substring search finds it at offset 4, and the
   filter still answers false.
   */
  lemma MisalignedMatchIsNoDuplicate()
    ensures StrPos([1, 2, 3, 4, 5, 6, 7, 8, 9, 10, 11, 12, 13, 14, 15, 16], [5, 6, 7, 8, 9, 10, 11, 12], 0) == Some(4)
    ensures !IsDuplicate([1, 2, 3, 4, 5, 6, 7, 8, 9, 10, 11, 12, 13, 14, 15, 16], [5, 6, 7, 8, 9, 10, 11, 12])
  {
    var cache: seq<Byte> := [1, 2, 3, 4, 5, 6, 7, 8, 9, 10, 11, 12, 13, 14, 15, 16];
    var key: seq<Byte> := [5, 6, 7, 8, 9, 10, 11, 12];
    assert MatchAt(cache, key, 4);
    forall j: nat | j < 4
      ensures !MatchAt(cache, key, j)
    {
      assert cache[j] != key[0];
    }
    forall k: nat | 8 * k + 8 <= |cache|
      ensures Slot(cache, k) != key
    {
      assert Slot(cache, k)[0] == cache[8 * k] != key[0];
    }
  }
}
