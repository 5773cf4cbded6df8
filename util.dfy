/**
 * The native functions behind the Ballerina `uuid` module: reading a UUID from
 * text, generating a version-1 style UUID, and converting between the text
 * form and 16 bytes. Ballerina strings and byte arrays are modelled as Dafny
 * strings and byte sequences; an exception that escapes is a `Fault`.
 */
module Util {
  import opened Words
  import opened Wrappers
  import opened Uuids
  import opened Version1
  import opened ByteBuffers

  /** The Java exceptions the byte conversions let escape. */
  datatype Fault =
    | IllegalArgument   // `UUID.fromString` refuses the text
    | BufferUnderflow   // `ByteBuffer.getLong` finds fewer than eight bytes left

  /** The message of the error `fromString` throws for text it cannot read. */
  const FailedToGenerate := "failed to generate uuid"

  /**
   * `fromString`: the UUID the text denotes, or an error carrying the fixed
   * message when `UUID.fromString` refuses it.
   */
  function FromString(s: string): (r: Result<Uuid, string>)
    ensures r.Err? <==> !IsUuidString(s)
    ensures r.Err? ==> r.error == FailedToGenerate
    ensures r.Ok? ==> Render(r.value) == Lower(s)
  {
    match Parse(s)
    case Some(u) => RenderParse(s); Ok(u)
    case None => Err(FailedToGenerate)
  }

  /**
   * `generateType1UUID`: the text of the UUID built from the duration
   * `seconds`, `nanos` since 1582-10-15T00:00:00 and the random word `random`.
   */
  function GenerateType1Uuid(seconds: JLong, nanos: int, random: Long): (r: string)
    requires 0 <= nanos < NanosPerSecond
    ensures IsCanonical(r)
    ensures r[14] == '1'
    ensures r[19] in {'8', '9', 'a', 'b'}
    ensures Parse(r) == Some(Uuid(MostSignificantBits(seconds, nanos), LeastSignificantBits(random)))
  {
    var u := Uuid(MostSignificantBits(seconds, nanos), LeastSignificantBits(random));
    RenderIsCanonical(u);
    ParseRender(u);
    RenderVersionDigit(u);
    VersionNibble(u.mostSigBits);
    RenderVariantDigit(u);
    VariantNibble(u.leastSigBits);
    Render(u)
  }

  lemma {:induction false} VersionNibble(m: Long)
    requires (m >> 12) & 0xF == 1
    ensures Digit(LowNibble(m >> 12)) == '1'
  {
  }

  lemma {:induction false} VariantNibble(l: Long)
    requires l >> 62 == 0x2
    ensures Digit(LowNibble(l >> 60)) in {'8', '9', 'a', 'b'}
  {
    assert 8 <= LowNibble(l >> 60) <= 11;
  }

  /**
   * Two generated texts are equal exactly when the halves they were built from
   * are: the same tick count and random word give the same text, and different
   * ones give different texts.
   */
  lemma {:induction false} GenerateType1UuidInjective(s1: JLong, n1: int, r1: Long, s2: JLong, n2: int, r2: Long)
    requires 0 <= n1 < NanosPerSecond && 0 <= n2 < NanosPerSecond
    ensures GenerateType1Uuid(s1, n1, r1) == GenerateType1Uuid(s2, n2, r2)
        <==> MostSignificantBits(s1, n1) == MostSignificantBits(s2, n2) && LeastSignificantBits(r1) == LeastSignificantBits(r2)
  {
    RenderInjective(Uuid(MostSignificantBits(s1, n1), LeastSignificantBits(r1)),
                    Uuid(MostSignificantBits(s2, n2), LeastSignificantBits(r2)));
  }

  /**
   * The text of a version-1 UUID keeps bits 4..63 of the tick count and bits
   * 0..61 of the random word, and nothing else of them.
   */
  lemma {:induction false} Type1TextKeepsInputs(t1: Long, r1: Long, t2: Long, r2: Long)
    ensures Render(Uuid(TimeLayout(t1), LeastSignificantBits(r1))) == Render(Uuid(TimeLayout(t2), LeastSignificantBits(r2)))
        <==> t1 >> 4 == t2 >> 4 && r1 & RandomMask == r2 & RandomMask
  {
    RenderInjective(Uuid(TimeLayout(t1), LeastSignificantBits(r1)), Uuid(TimeLayout(t2), LeastSignificantBits(r2)));
    TimeLayoutKeepsTicks(t1, t2);
    LeastSignificantBitsKeepsRandom(r1, r2);
  }

  /** What `getBytesFromUUID` returns: the two halves of the UUID, each big-endian. */
  function BytesFromUuid(s: string): (r: Result<seq<Byte>, Fault>)
    ensures r.Err? <==> !IsUuidString(s)
    ensures r.Err? ==> r.error == IllegalArgument
    ensures r.Ok? ==> (|r.value| == 16
      && FromBigEndian(r.value[..8]) == Parse(s).value.mostSigBits
      && FromBigEndian(r.value[8..]) == Parse(s).value.leastSigBits)
  {
    match Parse(s)
    case Some(u) =>
      var bs := BigEndian(u.mostSigBits) + BigEndian(u.leastSigBits);
      assert bs[..8] == BigEndian(u.mostSigBits) && bs[8..] == BigEndian(u.leastSigBits);
      FromBigEndianOfBigEndian(u.mostSigBits);
      FromBigEndianOfBigEndian(u.leastSigBits);
      Ok(bs)
    case None => Err(IllegalArgument)
  }

  /**
   * What `getUUIDFromBytes` returns: the text of the UUID whose halves are
   * bytes 0..7 and 8..15 read big-endian; bytes past 15 are not read.
   */
  function UuidFromBytes(bytes: seq<Byte>): (r: Result<string, Fault>)
    ensures r.Err? <==> |bytes| < 16
    ensures r.Err? ==> r.error == BufferUnderflow
    ensures r.Ok? ==> (IsCanonical(r.value)
      && Parse(r.value) == Some(Uuid(FromBigEndian(bytes[..8]), FromBigEndian(bytes[8..16]))))
  {
    if |bytes| < 16 then Err(BufferUnderflow)
    else
      var u := Uuid(FromBigEndian(bytes[..8]), FromBigEndian(bytes[8..16]));
      RenderIsCanonical(u);
      ParseRender(u);
      Ok(Render(u))
  }

  /**
   * `getBytesFromUUID`: reads the text, writes both halves into a fresh 16-byte
   * buffer and returns its bytes.
   */
  method GetBytesFromUuid(s: string) returns (r: Result<seq<Byte>, Fault>)
    ensures r == BytesFromUuid(s)
  {
    var parsed := Parse(s);
    if parsed.None? {
      return Err(IllegalArgument);
    }
    var u := parsed.value;
    var a := new Byte[16];
    var bb := new ByteBuffer.Wrap(a);
    var ok1 := bb.PutLong(u.mostSigBits);
    var ok2 := bb.PutLong(u.leastSigBits);
    assert a[..] == BigEndian(u.mostSigBits) + BigEndian(u.leastSigBits);
    return Ok(a[..]);
  }

  /**
   * `getUUIDFromBytes`: wraps a copy of the bytes in a buffer, reads the high
   * and then the low half, and writes out the UUID.
   */
  method GetUuidFromBytes(bytes: seq<Byte>) returns (r: Result<string, Fault>)
    ensures r == UuidFromBytes(bytes)
  {
    var a := new Byte[|bytes|](i requires 0 <= i < |bytes| => bytes[i]);
    var bb := new ByteBuffer.Wrap(a);
    var high := bb.GetLong();
    if high.None? {
      return Err(BufferUnderflow);
    }
    var low := bb.GetLong();
    if low.None? {
      return Err(BufferUnderflow);
    }
    assert a[..] == bytes;
    return Ok(Render(Uuid(high.value, low.value)));
  }

  /** Bytes past index 15 do not change what `getUUIDFromBytes` returns. */
  lemma {:induction false} UuidFromBytesIgnoresExtra(bytes: seq<Byte>, extra: seq<Byte>)
    requires |bytes| >= 16
    ensures UuidFromBytes(bytes + extra) == UuidFromBytes(bytes)
  {
    var b := bytes + extra;
    assert b[..8] == bytes[..8] && b[8..16] == bytes[8..16];
  }

  /** Text to bytes and back gives the text in lower case; canonical text comes back unchanged. */
  lemma {:induction false} UuidFromBytesOfBytesFromUuid(s: string)
    requires IsUuidString(s)
    ensures BytesFromUuid(s).Ok?
    ensures UuidFromBytes(BytesFromUuid(s).value) == Ok(Lower(s))
    ensures IsCanonical(s) ==> UuidFromBytes(BytesFromUuid(s).value) == Ok(s)
  {
    var bs := BytesFromUuid(s).value;
    assert bs[8..16] == bs[8..];
    RenderParse(s);
    if IsCanonical(s) {
      LowerOfCanonical(s);
    }
  }

  /** Sixteen bytes to text and back give the same bytes. */
  lemma {:induction false} BytesFromUuidOfUuidFromBytes(bytes: seq<Byte>)
    requires |bytes| == 16
    ensures UuidFromBytes(bytes).Ok?
    ensures BytesFromUuid(UuidFromBytes(bytes).value) == Ok(bytes)
  {
    CanonicalIsUuidString(UuidFromBytes(bytes).value);
    BigEndianOfFromBigEndian(bytes[..8]);
    BigEndianOfFromBigEndian(bytes[8..16]);
    assert bytes == bytes[..8] + bytes[8..16];
  }

  /** `fromString` and `getBytesFromUUID` refuse exactly the same text. */
  lemma {:induction false} FromStringAgreesWithBytes(s: string)
    ensures FromString(s).Err? <==> BytesFromUuid(s).Err?
    ensures FromString(s).Ok? ==> BytesFromUuid(s) == Ok(BigEndian(FromString(s).value.mostSigBits) + BigEndian(FromString(s).value.leastSigBits))
  {
  }
}
