/**
 Block positions and the spatial hash that turns a position into the 64-bit
 key stored in each record (`Level::blockHash`) and back
 (`Level::getBlockXYZ`). The level's codec is not part of this model: it is
 a parameter of every operation that encodes or decodes a position, and the
 one thing the block array relies on — that decoding undoes encoding on the
 coordinates the world supports — is the explicit assumption `Lawful`.
 */
module Position {
  import opened LittleEndian

  /** An integer block coordinate. */
  datatype Pos = Pos(x: int, y: int, z: int)

  function Add(p: Pos, v: Pos): Pos {
    Pos(p.x + v.x, p.y + v.y, p.z + v.z)
  }

  /** `Vector3::multiply(-1)` on an integer vector. */
  function Negate(v: Pos): Pos {
    Pos(-v.x, -v.y, -v.z)
  }

  /**
   The level's spatial hash: `hash` is `Level::blockHash`, `unhash` is
   `Level::getBlockXYZ`, `inDomain` the coordinates the world supports.
   */
  datatype Codec = Codec(hash: Pos -> Int64, unhash: Int64 -> Pos, inDomain: Pos -> bool)

  /**
   ASSUMPTION about the level's codec, taken as a precondition wherever a
   position has to survive a round trip: on its domain, `unhash` undoes `hash`.
   */
  ghost predicate Lawful(c: Codec) {
    forall p :: c.inDomain(p) ==> c.unhash(c.hash(p)) == p
  }

  /** A lawful codec never gives two positions of its domain the same key. */
  lemma HashInjective(c: Codec, p: Pos, q: Pos)
    requires Lawful(c) && c.inDomain(p) && c.inDomain(q)
    ensures c.hash(p) == c.hash(q) <==> p == q
  {
    if c.hash(p) == c.hash(q) {
      assert c.unhash(c.hash(p)) == p;
      assert c.unhash(c.hash(q)) == q;
    }
  }
}
