/**
 * The UUID value and its canonical text form, as `java.util.UUID` renders
 * (`toString`) and reads (`fromString`) it: 36 characters, five groups of
 * 8, 4, 4, 4 and 12 hex digits separated by hyphens (section 3 of RFC 4122).
 *
 * `toString` writes the 32 hex digits of the 128-bit value, high half first
 * and most significant digit first, zero-padded in each group; `fromString`
 * reads the groups as hexadecimal numbers and shifts them into place, which
 * for text in the grammar puts the 32 digits back in the same order. Both are
 * stated here through the sixteen nibbles of each half.
 */
module Uuids {
  import opened Words
  import opened Wrappers

  /** A UUID: the two 64-bit halves `java.util.UUID` holds. */
  datatype Uuid = Uuid(mostSigBits: Long, leastSigBits: Long)

  predicate IsHexChar(c: char) {
    '0' <= c <= '9' || 'a' <= c <= 'f' || 'A' <= c <= 'F'
  }

  predicate IsLowerHexChar(c: char) {
    '0' <= c <= '9' || 'a' <= c <= 'f'
  }

  function LowerChar(c: char): char {
    if 'A' <= c <= 'Z' then (c as int - 'A' as int + 'a' as int) as char else c
  }

  /** The string with every upper-case letter replaced by its lower-case one. */
  function Lower(s: string): (r: string)
    ensures |r| == |s|
  {
    seq(|s|, i requires 0 <= i < |s| => LowerChar(s[i]))
  }

  /** The lower-case hex digit of a nibble. */
  function Digit(n: Nibble): (c: char)
    ensures IsLowerHexChar(c)
  {
    if n == 0 then '0' else if n == 1 then '1' else if n == 2 then '2' else if n == 3 then '3'
    else if n == 4 then '4' else if n == 5 then '5' else if n == 6 then '6' else if n == 7 then '7'
    else if n == 8 then '8' else if n == 9 then '9' else if n == 10 then 'a' else if n == 11 then 'b'
    else if n == 12 then 'c' else if n == 13 then 'd' else if n == 14 then 'e' else 'f'
  }

  /** The nibble a hex digit stands for, in either case. */
  function DigitValue(c: char): Nibble
    requires IsHexChar(c)
  {
    match c
    case '0' => 0  case '1' => 1  case '2' => 2  case '3' => 3
    case '4' => 4  case '5' => 5  case '6' => 6  case '7' => 7
    case '8' => 8  case '9' => 9
    case 'a' | 'A' => 10  case 'b' | 'B' => 11  case 'c' | 'C' => 12
    case 'd' | 'D' => 13  case 'e' | 'E' => 14  case 'f' | 'F' => 15
  }

  /** A hex digit of either case is the lower-case digit of its value. */
  lemma {:induction false} DigitOfDigitValue(c: char)
    requires IsHexChar(c)
    ensures Digit(DigitValue(c)) == LowerChar(c)
  {
  }

  /** Each nibble has exactly one lower-case digit, and reading it gives the nibble back. */
  lemma {:induction false} DigitValueOfDigit(n: Nibble)
    ensures IsHexChar(Digit(n)) && DigitValue(Digit(n)) == n
  {
  }

  /** Upper and lower case of a hex digit stand for the same nibble. */
  lemma {:induction false} DigitValueOfLower(c: char)
    requires IsHexChar(c)
    ensures IsHexChar(LowerChar(c)) && DigitValue(LowerChar(c)) == DigitValue(c)
  {
  }

  // ---------------------------------------------------------------------------
  // A half as sixteen nibbles
  // ---------------------------------------------------------------------------

  /** Bits 0..3 of a word. */
  function LowNibble(w: Long): Nibble {
    (w & 0xF) as Nibble
  }

  /** The sixteen nibbles of a half, most significant first. */
  function Nibbles(w: Long): (ns: seq<Nibble>)
    ensures |ns| == 16
  {
    [LowNibble(w >> 60), LowNibble(w >> 56), LowNibble(w >> 52), LowNibble(w >> 48),
     LowNibble(w >> 44), LowNibble(w >> 40), LowNibble(w >> 36), LowNibble(w >> 32),
     LowNibble(w >> 28), LowNibble(w >> 24), LowNibble(w >> 20), LowNibble(w >> 16),
     LowNibble(w >> 12), LowNibble(w >> 8), LowNibble(w >> 4), LowNibble(w)]
  }

  /** The half whose nibbles, most significant first, are `ns`. */
  function FromNibbles(ns: seq<Nibble>): Long
    requires |ns| == 16
  {
    (ns[0] as Long << 60) | (ns[1] as Long << 56) | (ns[2] as Long << 52) | (ns[3] as Long << 48)
    | (ns[4] as Long << 44) | (ns[5] as Long << 40) | (ns[6] as Long << 36) | (ns[7] as Long << 32)
    | (ns[8] as Long << 28) | (ns[9] as Long << 24) | (ns[10] as Long << 20) | (ns[11] as Long << 16)
    | (ns[12] as Long << 12) | (ns[13] as Long << 8) | (ns[14] as Long << 4) | ns[15] as Long
  }

  /** A half is put back together from its nibbles. */
  lemma {:induction false} FromNibblesOfNibbles(w: Long)
    ensures FromNibbles(Nibbles(w)) == w
  {
  }

  /** Sixteen nibbles are taken apart again from the half they make. */
  lemma {:induction false} NibblesOfFromNibbles(ns: seq<Nibble>)
    requires |ns| == 16
    ensures Nibbles(FromNibbles(ns)) == ns
  {
    NibblesOfPacked(ns[0], ns[1], ns[2], ns[3], ns[4], ns[5], ns[6], ns[7],
                    ns[8], ns[9], ns[10], ns[11], ns[12], ns[13], ns[14], ns[15]);
    assert ns == [ns[0], ns[1], ns[2], ns[3], ns[4], ns[5], ns[6], ns[7],
                  ns[8], ns[9], ns[10], ns[11], ns[12], ns[13], ns[14], ns[15]];
  }

  lemma {:induction false} NibblesOfPacked(a: Nibble, b: Nibble, c: Nibble, d: Nibble,
                                           e: Nibble, f: Nibble, g: Nibble, h: Nibble,
                                           i: Nibble, j: Nibble, k: Nibble, l: Nibble,
                                           m: Nibble, n: Nibble, o: Nibble, p: Nibble)
    ensures Nibbles(FromNibbles([a, b, c, d, e, f, g, h, i, j, k, l, m, n, o, p]))
      == [a, b, c, d, e, f, g, h, i, j, k, l, m, n, o, p]
  {
  }

  // ---------------------------------------------------------------------------
  // The 8-4-4-4-12 layout
  // ---------------------------------------------------------------------------

  /** Where the four hyphens of a UUID string stand. */
  predicate IsHyphenIndex(i: int) {
    i == 8 || i == 13 || i == 18 || i == 23
  }

  /**
   * The grammar of section 3 of RFC 4122: 36 characters, hyphens at 8, 13, 18
   * and 23, and hex digits of either case everywhere else.
   */
  predicate IsUuidString(s: string) {
    |s| == 36 && forall i :: 0 <= i < 36 ==> if IsHyphenIndex(i) then s[i] == '-' else IsHexChar(s[i])
  }

  /** The canonical form: the grammar with lower-case digits only. */
  predicate IsCanonical(s: string) {
    |s| == 36 && forall i :: 0 <= i < 36 ==> if IsHyphenIndex(i) then s[i] == '-' else IsLowerHexChar(s[i])
  }

  /** Where the `k`-th of the 32 hex digits stands in the text. */
  function Place(k: int): (i: int)
    requires 0 <= k < 32
    ensures 0 <= i < 36 && !IsHyphenIndex(i)
  {
    if k < 8 then k else if k < 12 then k + 1 else if k < 16 then k + 2 else if k < 20 then k + 3 else k + 4
  }

  /** Which of the 32 hex digits stands at a non-hyphen position of the text. */
  function Slot(i: int): (k: int)
    requires 0 <= i < 36 && !IsHyphenIndex(i)
    ensures 0 <= k < 32 && Place(k) == i
  {
    if i < 8 then i else if i < 13 then i - 1 else if i < 18 then i - 2 else if i < 23 then i - 3 else i - 4
  }

  lemma {:induction false} SlotOfPlace(k: int)
    requires 0 <= k < 32
    ensures Slot(Place(k)) == k
  {
  }

  /** The 32 digits of `ns` in lower case, with hyphens at 8, 13, 18 and 23. */
  function Text(ns: seq<Nibble>): (s: string)
    requires |ns| == 32
    ensures |s| == 36
  {
    seq(36, i requires 0 <= i < 36 => if IsHyphenIndex(i) then '-' else Digit(ns[Slot(i)]))
  }

  /** The text of any 32 nibbles is canonical, and each nibble is at its place. */
  lemma {:induction false} TextIsCanonical(ns: seq<Nibble>)
    requires |ns| == 32
    ensures IsCanonical(Text(ns))
    ensures forall k :: 0 <= k < 32 ==> Text(ns)[Place(k)] == Digit(ns[k])
  {
    forall k | 0 <= k < 32
      ensures Text(ns)[Place(k)] == Digit(ns[k])
    {
      SlotOfPlace(k);
    }
  }

  /** The 32 nibbles that the hex digits of a string in the grammar stand for. */
  function DigitValues(s: string): (ns: seq<Nibble>)
    requires IsUuidString(s)
    ensures |ns| == 32
  {
    seq(32, k requires 0 <= k < 32 => DigitValue(s[Place(k)]))
  }

  /** Reading the digits of a text gives back the nibbles it was written from. */
  lemma {:induction false} DigitValuesOfText(ns: seq<Nibble>)
    requires |ns| == 32
    ensures IsUuidString(Text(ns)) && DigitValues(Text(ns)) == ns
  {
    var s := Text(ns);
    TextIsCanonical(ns);
    assert IsUuidString(s);
    forall k | 0 <= k < 32
      ensures DigitValues(s)[k] == ns[k]
    {
      DigitValueOfDigit(ns[k]);
    }
  }

  /** Writing the digits read from a string in the grammar gives the string in lower case. */
  lemma {:induction false} TextOfDigitValues(s: string)
    requires IsUuidString(s)
    ensures Text(DigitValues(s)) == Lower(s)
  {
    var t := Text(DigitValues(s));
    forall i | 0 <= i < 36
      ensures t[i] == Lower(s)[i]
    {
      if !IsHyphenIndex(i) {
        DigitOfDigitValue(s[i]);
      }
    }
  }

  // ---------------------------------------------------------------------------
  // java.util.UUID.toString and java.util.UUID.fromString
  // ---------------------------------------------------------------------------

  /** The 32 nibbles of a UUID: those of the high half, then those of the low half. */
  function NibblesOf(u: Uuid): (ns: seq<Nibble>)
    ensures |ns| == 32
  {
    Nibbles(u.mostSigBits) + Nibbles(u.leastSigBits)
  }

  /** The UUID whose 32 nibbles are `ns`. */
  function FromAllNibbles(ns: seq<Nibble>): Uuid
    requires |ns| == 32
  {
    Uuid(FromNibbles(ns[..16]), FromNibbles(ns[16..]))
  }

  lemma {:induction false} FromAllNibblesOfNibbles(u: Uuid)
    ensures FromAllNibbles(NibblesOf(u)) == u
  {
    var ns := NibblesOf(u);
    assert ns[..16] == Nibbles(u.mostSigBits) && ns[16..] == Nibbles(u.leastSigBits);
    FromNibblesOfNibbles(u.mostSigBits);
    FromNibblesOfNibbles(u.leastSigBits);
  }

  lemma {:induction false} NibblesOfFromAllNibbles(ns: seq<Nibble>)
    requires |ns| == 32
    ensures NibblesOf(FromAllNibbles(ns)) == ns
  {
    NibblesOfFromNibbles(ns[..16]);
    NibblesOfFromNibbles(ns[16..]);
    assert ns == ns[..16] + ns[16..];
  }

  /**
   * The text of a UUID: 8 digits of the top 32 bits of the high half, 4 of its
   * next 16, 4 of its low 16, then 4 digits of the top 16 bits of the low half
   * and 12 of its remaining 48, hyphen-separated and in lower case.
   */
  function Render(u: Uuid): (s: string)
    ensures |s| == 36 && IsCanonical(s)
  {
    TextIsCanonical(NibblesOf(u));
    Text(NibblesOf(u))
  }

  /**
   * Reading a UUID from text: text in the grammar gives the UUID whose 32
   * nibbles its digits stand for; any other text is refused.
   */
  function Parse(s: string): (r: Option<Uuid>)
    ensures r.Some? <==> IsUuidString(s)
  {
    if IsUuidString(s) then Some(FromAllNibbles(DigitValues(s))) else None
  }

  /** toString always writes the canonical lower-case form. */
  lemma {:induction false} RenderIsCanonical(u: Uuid)
    ensures IsCanonical(Render(u))
  {
    TextIsCanonical(NibblesOf(u));
  }

  /** The version nibble (bits 12..15 of the high half) is written at index 14. */
  lemma {:induction false} RenderVersionDigit(u: Uuid)
    ensures Render(u)[14] == Digit(LowNibble(u.mostSigBits >> 12))
  {
    assert Slot(14) == 12;
  }

  /** The top nibble of the low half, which holds the variant bits, is written at index 19. */
  lemma {:induction false} RenderVariantDigit(u: Uuid)
    ensures Render(u)[19] == Digit(LowNibble(u.leastSigBits >> 60))
  {
    assert Slot(19) == 16;
  }

  /** Reading back the text of a UUID gives the same UUID. */
  lemma {:induction false} ParseRender(u: Uuid)
    ensures Parse(Render(u)) == Some(u)
  {
    DigitValuesOfText(NibblesOf(u));
    FromAllNibblesOfNibbles(u);
  }

  /** Distinct UUIDs have distinct texts. */
  lemma {:induction false} RenderInjective(u: Uuid, v: Uuid)
    ensures Render(u) == Render(v) ==> u == v
  {
    ParseRender(u);
    ParseRender(v);
  }

  /** Writing out a UUID read from text gives that text in lower case. */
  lemma {:induction false} RenderParse(s: string)
    requires IsUuidString(s)
    ensures Parse(s).Some? && Render(Parse(s).value) == Lower(s)
  {
    NibblesOfFromAllNibbles(DigitValues(s));
    TextOfDigitValues(s);
  }

  /** Canonical text is in the grammar. */
  lemma {:induction false} CanonicalIsUuidString(s: string)
    requires IsCanonical(s)
    ensures IsUuidString(s)
  {
    forall i | 0 <= i < 36 && !IsHyphenIndex(i)
      ensures IsHexChar(s[i])
    {
    }
  }

  /** A canonical string is its own lower-case form. */
  lemma {:induction false} LowerOfCanonical(s: string)
    requires IsCanonical(s)
    ensures IsUuidString(s) && Lower(s) == s
  {
    assert forall i | 0 <= i < 36 :: Lower(s)[i] == s[i];
  }

  /** Writing out a UUID read from canonical text gives the text back. */
  lemma {:induction false} RenderParseCanonical(s: string)
    requires IsCanonical(s)
    ensures Parse(s).Some? && Render(Parse(s).value) == s
  {
    LowerOfCanonical(s);
    RenderParse(s);
  }

  /** fromString does not distinguish upper- from lower-case digits. */
  lemma {:induction false} ParseIgnoresCase(s: string)
    ensures Parse(Lower(s)) == Parse(s)
  {
    if IsUuidString(s) {
      var t := Lower(s);
      forall i | 0 <= i < 36
        ensures if IsHyphenIndex(i) then t[i] == '-' else IsHexChar(t[i])
      {
        if !IsHyphenIndex(i) { DigitValueOfLower(s[i]); }
      }
      assert IsUuidString(t);
      forall k | 0 <= k < 32
        ensures DigitValues(t)[k] == DigitValues(s)[k]
      {
        DigitValueOfLower(s[Place(k)]);
      }
      assert DigitValues(t) == DigitValues(s);
    } else {
      LowerKeepsNonUuid(s);
    }
  }

  /** Lower-casing does not bring text into the grammar. */
  lemma {:induction false} LowerKeepsNonUuid(s: string)
    requires !IsUuidString(s)
    ensures !IsUuidString(Lower(s))
  {
    if |s| == 36 {
      var i :| 0 <= i < 36 && !(if IsHyphenIndex(i) then s[i] == '-' else IsHexChar(s[i]));
      assert Lower(s)[i] == LowerChar(s[i]);
    }
  }
}
