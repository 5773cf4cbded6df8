/**
 * The part of `java.nio.ByteBuffer` the UUID conversions use: a buffer that
 * wraps a byte array, with a position that `putLong` and `getLong` advance by
 * eight. The byte order is the default one, big-endian. The limit of a wrapped
 * buffer is its capacity and nothing here changes it, so the bytes remaining
 * are those from the position to the end of the array.
 */
module ByteBuffers {
  import opened Words
  import opened Wrappers

  /** Bits 0..7 of a word. */
  function LowByte(w: Long): Byte {
    (w & 0xFF) as Byte
  }

  /** The eight bytes of a `long`, most significant first. */
  function BigEndian(w: Long): (bs: seq<Byte>)
    ensures |bs| == 8
  {
    [LowByte(w >> 56), LowByte(w >> 48), LowByte(w >> 40), LowByte(w >> 32),
     LowByte(w >> 24), LowByte(w >> 16), LowByte(w >> 8), LowByte(w)]
  }

  /** The `long` whose bytes, most significant first, are `bs`. */
  function FromBigEndian(bs: seq<Byte>): Long
    requires |bs| == 8
  {
    (bs[0] as Long << 56) | (bs[1] as Long << 48) | (bs[2] as Long << 40) | (bs[3] as Long << 32)
    | (bs[4] as Long << 24) | (bs[5] as Long << 16) | (bs[6] as Long << 8) | bs[7] as Long
  }

  /** Reading back the bytes written for a `long` gives the `long`. */
  lemma {:induction false} FromBigEndianOfBigEndian(w: Long)
    ensures FromBigEndian(BigEndian(w)) == w
  {
  }

  /** Writing the `long` read from eight bytes gives the bytes back. */
  lemma {:induction false} BigEndianOfFromBigEndian(bs: seq<Byte>)
    requires |bs| == 8
    ensures BigEndian(FromBigEndian(bs)) == bs
  {
    BigEndianOfPacked(bs[0], bs[1], bs[2], bs[3], bs[4], bs[5], bs[6], bs[7]);
    assert bs == [bs[0], bs[1], bs[2], bs[3], bs[4], bs[5], bs[6], bs[7]];
  }

  lemma {:induction false} BigEndianOfPacked(a: Byte, b: Byte, c: Byte, d: Byte,
                                             e: Byte, f: Byte, g: Byte, h: Byte)
    ensures BigEndian(FromBigEndian([a, b, c, d, e, f, g, h])) == [a, b, c, d, e, f, g, h]
  {
  }

  /** `s` with the bytes from index `p` on replaced by `bs`. */
  function Overwrite(s: seq<Byte>, p: nat, bs: seq<Byte>): (r: seq<Byte>)
    requires p + |bs| <= |s|
    ensures |r| == |s|
    ensures r[p..p + |bs|] == bs
    ensures forall i :: 0 <= i < |s| && !(p <= i < p + |bs|) ==> r[i] == s[i]
  {
    s[..p] + bs + s[p + |bs|..]
  }

  /** Overwriting eight bytes is eight single-byte updates. */
  lemma {:induction false} OverwriteEight(s: seq<Byte>, p: nat, bs: seq<Byte>)
    requires |bs| == 8 && p + 8 <= |s|
    ensures Overwrite(s, p, bs)
      == s[p := bs[0]][p + 1 := bs[1]][p + 2 := bs[2]][p + 3 := bs[3]]
          [p + 4 := bs[4]][p + 5 := bs[5]][p + 6 := bs[6]][p + 7 := bs[7]]
  {
    var r := s[p := bs[0]][p + 1 := bs[1]][p + 2 := bs[2]][p + 3 := bs[3]]
               [p + 4 := bs[4]][p + 5 := bs[5]][p + 6 := bs[6]][p + 7 := bs[7]];
    assert forall i | 0 <= i < |s| :: Overwrite(s, p, bs)[i] == r[i];
  }

  /** A byte buffer over a backing array `hb`, read and written at `position`. */
  class ByteBuffer {
    const hb: array<Byte>
    var position: nat

    ghost predicate Valid()
      reads this
    {
      position <= hb.Length
    }

    /** The bytes from the position to the end of the array. */
    function Remaining(): nat
      reads this
      requires Valid()
    {
      hb.Length - position
    }

    /** `ByteBuffer.wrap(a)`: a buffer over `a` itself, positioned at its start. */
    constructor Wrap(a: array<Byte>)
      ensures Valid() && hb == a && position == 0
    {
      hb := a;
      position := 0;
    }

    /**
     * `putLong(w)`: writes the eight bytes of `w`, most significant first, at the
     * position and moves past them. With fewer than eight bytes remaining Java
     * throws `BufferOverflowException`; here `ok` is false and nothing changes.
     */
    method PutLong(w: Long) returns (ok: bool)
      requires Valid()
      modifies this, hb
      ensures Valid()
      ensures ok <==> old(Remaining()) >= 8
      ensures ok ==> position == old(position) + 8 && hb[..] == Overwrite(old(hb[..]), old(position), BigEndian(w))
      ensures !ok ==> position == old(position) && hb[..] == old(hb[..])
    {
      if hb.Length - position < 8 {
        return false;
      }
      var p, bs := position, BigEndian(w);
      ghost var before := hb[..];
      hb[p] := bs[0];
      hb[p + 1] := bs[1];
      hb[p + 2] := bs[2];
      hb[p + 3] := bs[3];
      hb[p + 4] := bs[4];
      hb[p + 5] := bs[5];
      hb[p + 6] := bs[6];
      hb[p + 7] := bs[7];
      assert hb[..] == before[p := bs[0]][p + 1 := bs[1]][p + 2 := bs[2]][p + 3 := bs[3]]
                             [p + 4 := bs[4]][p + 5 := bs[5]][p + 6 := bs[6]][p + 7 := bs[7]];
      OverwriteEight(before, p, bs);
      position := p + 8;
      return true;
    }

    /**
     * `getLong()`: reads eight bytes at the position as a big-endian `long` and
     * moves past them. With fewer than eight bytes remaining Java throws
     * `BufferUnderflowException`; here the result is `None` and nothing changes.
     */
    method GetLong() returns (r: Option<Long>)
      requires Valid()
      modifies this
      ensures Valid()
      ensures r.Some? <==> old(Remaining()) >= 8
      ensures r.Some? ==> position == old(position) + 8 && r.value == FromBigEndian(hb[old(position)..old(position) + 8])
      ensures r.None? ==> position == old(position)
    {
      if hb.Length - position < 8 {
        return None;
      }
      var p := position;
      var w := (hb[p] as Long << 56) | (hb[p + 1] as Long << 48) | (hb[p + 2] as Long << 40)
        | (hb[p + 3] as Long << 32) | (hb[p + 4] as Long << 24) | (hb[p + 5] as Long << 16)
        | (hb[p + 6] as Long << 8) | hb[p + 7] as Long;
      position := p + 8;
      return Some(w);
    }
  }
}
