/** One character in each of the three Unicode encoding forms, as arithmetic; the
    converters compute the same with shifts and masks.
 */
module UtfCodec {
  import opened Machine

  type Unit = x: int | 0 <= x < 0x10000
  type Code = U32

  /** A Unicode scalar value: in range and not a surrogate. */
  predicate Scalar(ch: int)
  {
    0 <= ch <= 0x10FFFF && !Surrogate(ch)
  }

  predicate Surrogate(ch: int)
  {
    0xD800 <= ch <= 0xDFFF
  }

  const REPLACEMENT: int := 0xFFFD

  // ----- UTF-8

  /** The table of trailing bytes, by first byte. */
  function Trailing(b: Byte): nat
  {
    if b < 0xC0 then 0 else if b < 0xE0 then 1 else if b < 0xF0 then 2
    else if b < 0xF8 then 3 else if b < 0xFC then 4 else 5
  }

  predicate Continues(b: Byte)
  {
    0x80 <= b <= 0xBF
  }

  /** What the inner switch of `isLegalUTF8` asks of the second byte. */
  predicate SecondAllowed(first: Byte, b: Byte)
  {
    if first == 0xE0 then b >= 0xA0
    else if first == 0xED then b <= 0x9F
    else if first == 0xF0 then b >= 0x90
    else if first == 0xF4 then b <= 0x8F
    else b >= 0x80
  }

  /** `isLegalUTF8` of the bytes `s`. */
  predicate IsLegal(s: seq<Byte>)
  {
    && 1 <= |s| <= 4
    && (|s| >= 4 ==> Continues(s[3]))
    && (|s| >= 3 ==> Continues(s[2]))
    && (|s| >= 2 ==> s[1] <= 0xBF && SecondAllowed(s[0], s[1]))
    && !(0x80 <= s[0] < 0xC2) && s[0] <= 0xF4
  }

  /** One character as section 4 of RFC 3629 defines it. */
  predicate WellFormed(s: seq<Byte>)
  {
    if |s| == 1 then s[0] <= 0x7F
    else if |s| == 2 then 0xC2 <= s[0] <= 0xDF && Continues(s[1])
    else if |s| == 3 then
      && Continues(s[2])
      && (|| (s[0] == 0xE0 && 0xA0 <= s[1] <= 0xBF)
          || (0xE1 <= s[0] <= 0xEC && Continues(s[1]))
          || (s[0] == 0xED && 0x80 <= s[1] <= 0x9F)
          || (0xEE <= s[0] <= 0xEF && Continues(s[1])))
    else
      && |s| == 4 && Continues(s[2]) && Continues(s[3])
      && (|| (s[0] == 0xF0 && 0x90 <= s[1] <= 0xBF)
          || (0xF1 <= s[0] <= 0xF3 && Continues(s[1]))
          || (s[0] == 0xF4 && 0x80 <= s[1] <= 0x8F))
  }

  /** The family that is accepted without being well-formed: after ED and F4 the
      second byte may be too small to be a continuation. */
  predicate Loose(s: seq<Byte>)
  {
    && (|s| == 3 || |s| == 4) && s[0] == (if |s| == 3 then 0xED else 0xF4)
    && s[1] < 0x80 && Continues(s[2]) && (|s| == 4 ==> Continues(s[3]))
  }

  /** `isLegalUTF8`, exactly. */
  lemma LegalExact(s: seq<Byte>)
    requires s != [] && |s| == Trailing(s[0]) + 1
    ensures IsLegal(s) <==> WellFormed(s) || Loose(s)
    ensures !(WellFormed(s) && Loose(s))
  {
  }

  /** Such a character: a space in the place of a continuation. */
  lemma LooseExample()
    ensures IsLegal([0xED, 0x20, 0x80]) && !WellFormed([0xED, 0x20, 0x80])
    ensures Value([0xED, 0x20, 0x80]) == 0xB800 && Put8(0xB800) == [0xEB, 0xA0, 0x80]
  {
    SumBytes([0xED, 0x20, 0x80]);
  }

  /** What the drop-through switch adds up, byte by byte. */
  function Sum(s: seq<Byte>): nat
  {
    if s == [] then 0 else 64 * Sum(s[..|s| - 1]) + s[|s| - 1] as int
  }

  const OFFSETS: seq<int> := [0, 0x3080, 0xE2080, 0x3C82080]

  /** The character that the bytes stand for. */
  function Value(s: seq<Byte>): Code
    requires 1 <= |s| <= 4
  {
    var v := Sum(s) - OFFSETS[|s| - 1];
    if 0 <= v < 0x1_0000_0000 then v else v % 0x1_0000_0000
  }

  lemma {:induction false} SumBytes(s: seq<Byte>)
    ensures |s| == 1 ==> Sum(s) == s[0]
    ensures |s| == 2 ==> Sum(s) == 64 * (s[0] as int) + s[1] as int
    ensures |s| == 3 ==> Sum(s) == 4096 * (s[0] as int) + 64 * (s[1] as int) + s[2] as int
    ensures |s| == 4 ==> Sum(s) == 262144 * (s[0] as int) + 4096 * (s[1] as int) + 64 * (s[2] as int) + s[3] as int
  {
    if |s| == 1 {
      assert Sum(s[..0]) == 0;
    } else if 1 < |s| <= 4 {
      SumBytes(s[..|s| - 1]);
    }
  }

  /** The bytes of a character; a replacement if it is too large. */
  function Put8(ch: Code): (s: seq<Byte>)
    ensures 1 <= |s| <= 4
  {
    if ch < 0x80 then [ch]
    else if ch < 0x800 then [0xC0 + ch / 64, 0x80 + ch % 64]
    else if ch < 0x10000 then [0xE0 + ch / 64 / 64, 0x80 + ch / 64 % 64, 0x80 + ch % 64]
    else if ch <= 0x10FFFF then [0xF0 + ch / 64 / 64 / 64, 0x80 + ch / 64 / 64 % 64, 0x80 + ch / 64 % 64, 0x80 + ch % 64]
    else [0xEF, 0xBF, 0xBD]
  }

  lemma Put8Reads(ch: Code)
    requires Scalar(ch)
    ensures WellFormed(Put8(ch)) && IsLegal(Put8(ch)) && Value(Put8(ch)) == ch
    ensures |Put8(ch)| == Trailing(Put8(ch)[0]) + 1
  {
    SumBytes(Put8(ch));
  }

  /** Well-formed sequences are exactly the encodings of scalar values. */
  lemma WellFormedIsPut(s: seq<Byte>)
    requires WellFormed(s)
    ensures Scalar(Value(s)) && Put8(Value(s)) == s && |s| == Trailing(s[0]) + 1
  {
    if |s| == 3 {
      WellFormedIsPut3(s);
    } else if |s| == 4 {
      WellFormedIsPut4(s);
    } else {
      SumBytes(s);
    }
  }

  lemma WellFormedIsPut3(s: seq<Byte>)
    requires WellFormed(s) && |s| == 3
    ensures Scalar(Value(s)) && Put8(Value(s)) == s
  {
    SumBytes(s);
    Bytes3(s[0] as int - 0xE0, s[1] as int - 0x80, s[2] as int - 0x80, Value(s));
  }

  lemma WellFormedIsPut4(s: seq<Byte>)
    requires WellFormed(s) && |s| == 4
    ensures Scalar(Value(s)) && Put8(Value(s)) == s
  {
    SumBytes(s);
    Bytes4(s[0] as int - 0xF0, s[1] as int - 0x80, s[2] as int - 0x80, s[3] as int - 0x80, Value(s));
  }

  lemma Bytes3(a: nat, b: int, c: int, ch: int)
    requires 0 <= b < 64 && 0 <= c < 64 && ch == 4096 * a + 64 * b + c
    ensures ch % 64 == c && ch / 64 == 64 * a + b && ch / 64 % 64 == b && ch / 64 / 64 == a
  {
  }

  lemma Bytes4(a: nat, b: int, c: int, d: int, ch: int)
    requires 0 <= b < 64 && 0 <= c < 64 && 0 <= d < 64 && ch == 262144 * a + 4096 * b + 64 * c + d
    ensures ch % 64 == d && ch / 64 % 64 == c && ch / 64 / 64 % 64 == b && ch / 64 / 64 / 64 == a
  {
    Bytes3(a, b, c, ch / 64);
  }

  /** Whatever is accepted stands for a scalar value. */
  lemma LegalIsScalar(s: seq<Byte>)
    requires s != [] && |s| == Trailing(s[0]) + 1 && IsLegal(s)
    ensures Scalar(Value(s))
  {
    SumBytes(s);
  }

  // ----- UTF-16

  predicate HighHalf(u: int)
  {
    0xD800 <= u <= 0xDBFF
  }

  predicate LowHalf(u: int)
  {
    0xDC00 <= u <= 0xDFFF
  }

  /** The units of a character that is in range. */
  function Put16(ch: Code): (s: seq<Unit>)
    requires ch <= 0x10FFFF
    ensures |s| == if ch <= 0xFFFF then 1 else 2
  {
    if ch <= 0xFFFF then [ch]
    else [(ch - 0x10000) / 1024 + 0xD800, (ch - 0x10000) % 1024 + 0xDC00]
  }

  /** The character of a surrogate pair. */
  function Pair(a: Unit, b: Unit): (ch: Code)
    requires HighHalf(a) && LowHalf(b)
    ensures 0xFFFF < ch <= 0x10FFFF && Put16(ch) == [a, b]
  {
    (a - 0xD800) * 1024 + (b - 0xDC00) + 0x10000
  }

  lemma Put16Reads(ch: Code)
    requires Scalar(ch)
    ensures ch <= 0xFFFF ==> !Surrogate(Put16(ch)[0])
    ensures ch > 0xFFFF ==> HighHalf(Put16(ch)[0]) && LowHalf(Put16(ch)[1]) && Pair(Put16(ch)[0], Put16(ch)[1]) == ch
  {
  }
}
