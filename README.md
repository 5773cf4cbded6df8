# UUID generation and conversion of the Ballerina `uuid` module

This project models the native Java core of the Ballerina `uuid` module in
Dafny and proves properties of the model. The core lives in two near-identical
copies of `Util.java`, under `uuid-native/` and `native/`. They behave the
same except that only the `uuid-native/` copy has `fromString`. The other
differences do not change behaviour: package name and imports, the named epoch
constants of the `native/` copy, and the boxed `Long high`/`Long low` locals of
`getUUIDFromBytes` in `uuid-native/` where `native/` uses `long`. Both copies
are modelled once. The table cites the `uuid-native/` copy. The matching lines in `native/`
are:

- `generateType1UUID`: 45-50.
- `get64LeastSignificantBitsForVersion1`: 52-57.
- `get64MostSignificantBitsForVersion1`: 59-68.
- `getBytesFromUUID`: 70-77.
- `getUUIDFromBytes`: 79-85.

What is modelled:

- **Version-1 halves** (`version1.dfy`, module `Version1`).
  - The tick count `seconds * 10000000 + nanos * 100` is computed in Java's
    wrap-around `long` arithmetic.
  - The most significant half lays out the tick count's bits 16..63, the
    version marker `0001` in bits 12..15, and the tick count's bits 4..15 in
    bits 0..11.
  - The least significant half is the random word with its two top bits
    replaced by the variant `10`.
  - A Java `long` is kept as its 64-bit pattern (`bv64`).
- **The text form** (`uuids.dfy`, module `Uuids`).
  - `java.util.UUID.toString` is modelled as `Render`: the 32 hex digits of
    the 128-bit value, lower case, 8-4-4-4-12, hyphen-separated.
  - `java.util.UUID.fromString` is modelled as `Parse`, over the grammar of
    section 3 of RFC 4122. Both cases of hex digit are accepted.
  - Each half is stated through its sixteen nibbles.
- **The byte buffer** (`bytebuffers.dfy`, module `ByteBuffers`).
  - It is the part of `java.nio.ByteBuffer` the core uses: `wrap`,
    `putLong` and `getLong`.
  - It is a class over a backing byte array, with a position that the two
    methods advance by eight.
  - Longs are written big-endian.
- **The native functions** (`util.dfy`, module `Util`).
  - `fromString`, `generateType1UUID`, `getBytesFromUUID` and
    `getUUIDFromBytes`.
  - The byte conversions are methods that run the buffer. Each is proved
    equal to a function that states its result.
  - Java exceptions that escape are modelled as `Fault` values.
  - The error that `fromString` throws (`ErrorCreator.createError`, line 40)
    is modelled as the `Err` of a `Result`, carrying its fixed message.

Behaviour of the code worth knowing, which the model keeps as written:

- **Tick count.** The variable `timeForUuidIn100Nanos` (line 63) names a count
  of 100-ns intervals, which would need the nanosecond part divided by 100;
  the code multiplies it by 100. `Version1.TicksNotTimeOrdered` shows the
  consequence: the count is not ordered like time.
- **Short byte arrays.** `getUUIDFromBytes` has no exact-length check. It
  fails only when fewer than 16 bytes are given, with a buffer underflow, and
  it ignores bytes past index 15.
- **Malformed text to `getBytesFromUUID`.** The `IllegalArgumentException`
  from `UUID.fromString` escapes unwrapped (`Fault.IllegalArgument`). Only
  `fromString` turns it into the "failed to generate uuid" error.

## Model

| member | source | states |
|---|---|---|
| Words.Wrap | uuid-native/src/main/java/org.ballerinalang.stdlib.uuid/nativeimpl/Util.java:63 | the bit pattern that Java's `long` arithmetic leaves: below 2^64 and congruent to the exact value modulo 2^64 |
| Version1.TickCount | uuid-native/src/main/java/org.ballerinalang.stdlib.uuid/nativeimpl/Util.java:61-63 | the tick count `seconds*10000000 + nanos*100` wrapped to 64 bits is below 2^64 |
| Version1.TicksExact | uuid-native/src/main/java/org.ballerinalang.stdlib.uuid/nativeimpl/Util.java:61-63 | for 0 <= seconds <= 922337193685 and 0 <= nanos < 10^9 nothing wraps: the tick count is the exact value and a non-negative `long` |
| Version1.TicksNotTimeOrdered | uuid-native/src/main/java/org.ballerinalang.stdlib.uuid/nativeimpl/Util.java:63 | because nanos is multiplied by 100, second 0 plus 999999999 ns gets a larger tick count than second 1 |
| Version1.TimeLayout | uuid-native/src/main/java/org.ballerinalang.stdlib.uuid/nativeimpl/Util.java:64-66 | the high half has `(msb >> 12) & 0xF == 1`, bits 16..63 equal to the tick count's, and bits 0..11 equal to the tick count's bits 4..15 |
| Version1.TimeLayoutNoCarry | uuid-native/src/main/java/org.ballerinalang.stdlib.uuid/nativeimpl/Util.java:64-66 | the two `+` of the high half never carry: they equal bitwise OR |
| Version1.TimeLayoutRecoversTicks | uuid-native/src/main/java/org.ballerinalang.stdlib.uuid/nativeimpl/Util.java:64-66 | bits 4..63 of the tick count can be read back from the high half |
| Version1.TimeLayoutKeepsTicks | uuid-native/src/main/java/org.ballerinalang.stdlib.uuid/nativeimpl/Util.java:64-66 | two tick counts give the same high half if and only if they agree on bits 4..63 |
| Version1.TimeLayoutAgrees | uuid-native/src/main/java/org.ballerinalang.stdlib.uuid/nativeimpl/Util.java:64-66 | tick counts that agree on bits 4..63 give the same high half |
| Version1.TimeLayoutDetermines | uuid-native/src/main/java/org.ballerinalang.stdlib.uuid/nativeimpl/Util.java:64-66 | equal high halves come from tick counts that agree on bits 4..63 |
| Version1.MostSignificantBits | uuid-native/src/main/java/org.ballerinalang.stdlib.uuid/nativeimpl/Util.java:58-67 | the high half built from the duration has `(msb >> 12) & 0xF == 1`, bits 16..63 equal to the tick count's and bits 0..11 equal to the tick count's bits 4..15 |
| Version1.LeastSignificantBits | uuid-native/src/main/java/org.ballerinalang.stdlib.uuid/nativeimpl/Util.java:53-55 | the low half's top two bits are `10` and its bits 0..61 are the random word's |
| Version1.LeastSignificantBitsNoCarry | uuid-native/src/main/java/org.ballerinalang.stdlib.uuid/nativeimpl/Util.java:53-55 | the `+` of the variant flag never carries: it equals bitwise OR |
| Version1.LeastSignificantBitsKeepsRandom | uuid-native/src/main/java/org.ballerinalang.stdlib.uuid/nativeimpl/Util.java:53-55 | two random words give the same low half if and only if they agree on bits 0..61 |
| Version1.LeastSignificantBitsAgree | uuid-native/src/main/java/org.ballerinalang.stdlib.uuid/nativeimpl/Util.java:53-55 | random words that agree on bits 0..61 give the same low half |
| Uuids.DigitOfDigitValue | uuid-native/src/main/java/org.ballerinalang.stdlib.uuid/nativeimpl/Util.java:37 | a hex digit of either case, read and written again, is its lower-case form |
| Uuids.DigitValueOfDigit | uuid-native/src/main/java/org.ballerinalang.stdlib.uuid/nativeimpl/Util.java:48 | the digit written for a nibble is a hex digit and reads back as that nibble |
| Uuids.DigitValueOfLower | uuid-native/src/main/java/org.ballerinalang.stdlib.uuid/nativeimpl/Util.java:37 | upper- and lower-case forms of a hex digit read as the same nibble |
| Uuids.FromNibblesOfNibbles | uuid-native/src/main/java/org.ballerinalang.stdlib.uuid/nativeimpl/Util.java:48 | a half is put back together from its sixteen nibbles |
| Uuids.NibblesOfFromNibbles | uuid-native/src/main/java/org.ballerinalang.stdlib.uuid/nativeimpl/Util.java:37 | sixteen nibbles are taken apart again from the half they make |
| Uuids.NibblesOfPacked | uuid-native/src/main/java/org.ballerinalang.stdlib.uuid/nativeimpl/Util.java:37 | the same, for sixteen named nibbles |
| Uuids.Place | uuid-native/src/main/java/org.ballerinalang.stdlib.uuid/nativeimpl/Util.java:48 | the position of each of the 32 digits in the text is inside the 36 characters and not a hyphen position |
| Uuids.Slot | uuid-native/src/main/java/org.ballerinalang.stdlib.uuid/nativeimpl/Util.java:48 | every non-hyphen position holds one of the 32 digits, and `Place` of it is that position |
| Uuids.SlotOfPlace | uuid-native/src/main/java/org.ballerinalang.stdlib.uuid/nativeimpl/Util.java:48 | `Slot` undoes `Place`, so the digit positions and the 32 digits are in one-to-one correspondence |
| Uuids.TextIsCanonical | uuid-native/src/main/java/org.ballerinalang.stdlib.uuid/nativeimpl/Util.java:48 | the text of any 32 nibbles is in canonical form, with the digit of the k-th nibble at the k-th digit position |
| Uuids.DigitValuesOfText | uuid-native/src/main/java/org.ballerinalang.stdlib.uuid/nativeimpl/Util.java:37 | reading the digits of a text gives back the 32 nibbles it was written from |
| Uuids.TextOfDigitValues | uuid-native/src/main/java/org.ballerinalang.stdlib.uuid/nativeimpl/Util.java:37 | writing out the nibbles read from a string in the grammar gives the string in lower case |
| Uuids.FromAllNibblesOfNibbles | uuid-native/src/main/java/org.ballerinalang.stdlib.uuid/nativeimpl/Util.java:48 | a UUID is put back together from its 32 nibbles, high half first |
| Uuids.NibblesOfFromAllNibbles | uuid-native/src/main/java/org.ballerinalang.stdlib.uuid/nativeimpl/Util.java:37 | 32 nibbles are taken apart again from the UUID they make |
| Uuids.Render | uuid-native/src/main/java/org.ballerinalang.stdlib.uuid/nativeimpl/Util.java:48 | `UUID.toString` writes 36 characters in canonical form; `ParseRender` and `RenderInjective` show the text determines the UUID |
| Uuids.Parse | uuid-native/src/main/java/org.ballerinalang.stdlib.uuid/nativeimpl/Util.java:37 | `UUID.fromString` gives a UUID if and only if the text is in the RFC 4122 grammar |
| Uuids.RenderIsCanonical | uuid-native/src/main/java/org.ballerinalang.stdlib.uuid/nativeimpl/Util.java:48 | `UUID.toString` always writes 36 characters: lower-case hex digits, with hyphens at 8, 13, 18 and 23 |
| Uuids.RenderVersionDigit | uuid-native/src/main/java/org.ballerinalang.stdlib.uuid/nativeimpl/Util.java:48 | character 14 of the text is the digit of the high half's bits 12..15 |
| Uuids.RenderVariantDigit | uuid-native/src/main/java/org.ballerinalang.stdlib.uuid/nativeimpl/Util.java:48 | character 19 of the text is the digit of the low half's bits 60..63 |
| Uuids.ParseRender | uuid-native/src/main/java/org.ballerinalang.stdlib.uuid/nativeimpl/Util.java:48 | reading back the text of any UUID gives the same UUID |
| Uuids.RenderInjective | uuid-native/src/main/java/org.ballerinalang.stdlib.uuid/nativeimpl/Util.java:48 | distinct UUIDs have distinct texts |
| Uuids.RenderParse | uuid-native/src/main/java/org.ballerinalang.stdlib.uuid/nativeimpl/Util.java:37 | writing out the UUID read from a string in the grammar gives the string in lower case |
| Uuids.CanonicalIsUuidString | uuid-native/src/main/java/org.ballerinalang.stdlib.uuid/nativeimpl/Util.java:37 | canonical text is in the grammar `UUID.fromString` accepts |
| Uuids.LowerOfCanonical | uuid-native/src/main/java/org.ballerinalang.stdlib.uuid/nativeimpl/Util.java:37 | canonical text is in the grammar and is its own lower-case form |
| Uuids.RenderParseCanonical | uuid-native/src/main/java/org.ballerinalang.stdlib.uuid/nativeimpl/Util.java:37 | writing out the UUID read from canonical text gives the text back |
| Uuids.ParseIgnoresCase | uuid-native/src/main/java/org.ballerinalang.stdlib.uuid/nativeimpl/Util.java:37 | `UUID.fromString` gives the same outcome for a text and its lower-case form, success or failure |
| Uuids.LowerKeepsNonUuid | uuid-native/src/main/java/org.ballerinalang.stdlib.uuid/nativeimpl/Util.java:37 | lower-casing never brings text into the grammar |
| ByteBuffers.FromBigEndianOfBigEndian | uuid-native/src/main/java/org.ballerinalang.stdlib.uuid/nativeimpl/Util.java:72-73 | reading back the eight big-endian bytes written for a `long` gives the `long` |
| ByteBuffers.BigEndianOfFromBigEndian | uuid-native/src/main/java/org.ballerinalang.stdlib.uuid/nativeimpl/Util.java:80-81 | writing out the `long` read from eight bytes gives the same eight bytes |
| ByteBuffers.BigEndianOfPacked | uuid-native/src/main/java/org.ballerinalang.stdlib.uuid/nativeimpl/Util.java:80-81 | the same, for eight named bytes |
| ByteBuffers.Overwrite | uuid-native/src/main/java/org.ballerinalang.stdlib.uuid/nativeimpl/Util.java:72-73 | overwriting at `p` keeps the length, puts the new bytes at `p`, and leaves every other byte alone |
| ByteBuffers.OverwriteEight | uuid-native/src/main/java/org.ballerinalang.stdlib.uuid/nativeimpl/Util.java:72-73 | overwriting eight bytes is eight single-byte updates |
| ByteBuffers.ByteBuffer.Wrap | uuid-native/src/main/java/org.ballerinalang.stdlib.uuid/nativeimpl/Util.java:71 | `ByteBuffer.wrap` gives a buffer over the array itself, positioned at 0 |
| ByteBuffers.ByteBuffer.PutLong | uuid-native/src/main/java/org.ballerinalang.stdlib.uuid/nativeimpl/Util.java:72-73 | `putLong` succeeds if and only if eight bytes remain. It then writes the big-endian bytes at the position, leaves every other byte unchanged and advances the position by 8. On overflow nothing changes |
| ByteBuffers.ByteBuffer.GetLong | uuid-native/src/main/java/org.ballerinalang.stdlib.uuid/nativeimpl/Util.java:80-81 | `getLong` succeeds if and only if eight bytes remain. It then returns the big-endian `long` of the eight bytes at the position and advances the position by 8. On underflow the position is unchanged |
| Util.FromString | uuid-native/src/main/java/org.ballerinalang.stdlib.uuid/nativeimpl/Util.java:35-41 | fails if and only if the text is outside the grammar, and then with the message "failed to generate uuid". On success the UUID's text is the input in lower case |
| Util.GenerateType1Uuid | uuid-native/src/main/java/org.ballerinalang.stdlib.uuid/nativeimpl/Util.java:44-49 | the generated text is canonical (36 characters, hyphens at 8, 13, 18 and 23), character 14 is `1`, character 19 is one of `8 9 a b`, and it reads back as the UUID built from the two halves |
| Util.VersionNibble | uuid-native/src/main/java/org.ballerinalang.stdlib.uuid/nativeimpl/Util.java:64-66 | a half whose bits 12..15 are `0001` writes the digit `1` for them |
| Util.VariantNibble | uuid-native/src/main/java/org.ballerinalang.stdlib.uuid/nativeimpl/Util.java:53-55 | a half whose top two bits are `10` writes one of `8 9 a b` for its top nibble |
| Util.GenerateType1UuidInjective | uuid-native/src/main/java/org.ballerinalang.stdlib.uuid/nativeimpl/Util.java:44-49 | two generated texts are equal if and only if their high halves are equal and their low halves are equal |
| Util.Type1TextKeepsInputs | uuid-native/src/main/java/org.ballerinalang.stdlib.uuid/nativeimpl/Util.java:44-67 | two version-1 texts are equal if and only if the tick counts agree on bits 4..63 and the random words agree on bits 0..61 |
| Util.BytesFromUuid | uuid-native/src/main/java/org.ballerinalang.stdlib.uuid/nativeimpl/Util.java:69-76 | fails with an illegal-argument fault if and only if the text is outside the grammar. Otherwise it gives 16 bytes: bytes 0..7 read big-endian are the high half and bytes 8..15 the low half |
| Util.UuidFromBytes | uuid-native/src/main/java/org.ballerinalang.stdlib.uuid/nativeimpl/Util.java:78-84 | fails with a buffer underflow if and only if fewer than 16 bytes are given. Otherwise the text is canonical and reads back as the UUID whose halves are bytes 0..7 and 8..15 big-endian |
| Util.GetBytesFromUuid | uuid-native/src/main/java/org.ballerinalang.stdlib.uuid/nativeimpl/Util.java:69-76 | writing both halves through a 16-byte buffer gives exactly `BytesFromUuid` |
| Util.GetUuidFromBytes | uuid-native/src/main/java/org.ballerinalang.stdlib.uuid/nativeimpl/Util.java:78-84 | reading both halves through a buffer over the bytes gives exactly `UuidFromBytes` |
| Util.UuidFromBytesIgnoresExtra | uuid-native/src/main/java/org.ballerinalang.stdlib.uuid/nativeimpl/Util.java:78-84 | appending bytes after the first 16 does not change the result |
| Util.UuidFromBytesOfBytesFromUuid | uuid-native/src/main/java/org.ballerinalang.stdlib.uuid/nativeimpl/Util.java:69-84 | text to bytes and back gives the text in lower case, and canonical text unchanged |
| Util.BytesFromUuidOfUuidFromBytes | uuid-native/src/main/java/org.ballerinalang.stdlib.uuid/nativeimpl/Util.java:69-84 | 16 bytes to text and back give the same 16 bytes |
| Util.FromStringAgreesWithBytes | uuid-native/src/main/java/org.ballerinalang.stdlib.uuid/nativeimpl/Util.java:35-41 | `fromString` and `getBytesFromUUID` refuse the same texts, and the bytes are the big-endian halves of the UUID `fromString` gives |

## Left out

- The clock: `LocalDateTime.now()` and `Duration.between` from 1582-10-15T00:00:00 are not modelled. The duration's seconds and nanoseconds are parameters of `GenerateType1Uuid`, and `0 <= nanos < 10^9` is the range `Duration.getNano` returns. The epoch constants (`native/` lines 38-43) feed only the clock.
- The random generator: `java.util.Random.nextLong()` is a parameter, the random word. Uniqueness across calls is probabilistic and is not stated.
- The Ballerina runtime glue (`BString`, `BArray`, `StringUtils`, `ValueCreator`, `ErrorCreator`) is left out. It only converts values: strings are Dafny strings, byte arrays are byte sequences, and an error value is the `Err` of a `Result`.
- `java.util.UUID.fromString` on text outside the RFC 4122 grammar: the model refuses all such text. Java's own parser also accepts some of it, such as shorter groups, and that leniency is not modelled.
- `Uuids.Parse`: stated through the 32 digits in order, not through Java's group arithmetic (`parseLong` of each group, shifted into place). The two give the same halves on text in the grammar, but that equivalence is not proved here.
- `Uuids.Render`: stated through the 32 nibbles in order, not through `UUID.digits` of shifted halves. The two write the same text, but that equivalence is not proved here.
- `java.nio.ByteBuffer`: only `wrap`, `putLong` and `getLong` in the default big-endian order are modelled. Limit, mark, byte order and the other accessors are left out. An overflow or underflow returns a value here instead of throwing. The overflow path of `putLong` cannot occur in `getBytesFromUUID`, because its buffer always has 16 bytes.
- `Util.GetUuidFromBytes`: wraps a fresh copy of the bytes, as `BArray.getBytes()` hands back an array the caller owns. Aliasing between that array and any other Ballerina value is not modelled.
