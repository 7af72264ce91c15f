/** Byte-order marks: the byte signatures that select a codepage before
    conversion, and the U+FEFF code unit that is chopped off after it. */
module Bom {
  import opened Types

  /** The three-byte UTF-8 form of a code point in U+0800..U+FFFF other
      than the surrogates (RFC 3629, section 3); its contract is the decoding back. */
  function Utf8ThreeByte(c: int): (b: seq<byte>)
    requires 0x800 <= c < 0x1_0000 && !(0xD800 <= c < 0xE000)
    ensures |b| == 3
    ensures 0xE0 <= b[0] < 0xF0 && 0x80 <= b[1] < 0xC0 && 0x80 <= b[2] < 0xC0
    ensures ((b[0] as int - 0xE0) * 64 + (b[1] as int - 0x80)) * 64 + (b[2] as int - 0x80) == c
  {
    [(0xE0 + c / 0x1000) as byte, (0x80 + c / 64 % 64) as byte, (0x80 + c % 64) as byte]
  }

  /** A UTF-16 code unit serialized least significant byte first (RFC 2781, section 3.1). */
  function Utf16LEUnit(u: char16): (b: seq<byte>)
    ensures |b| == 2 && b[0] as int + 0x100 * b[1] as int == u as int
  {
    [(u % 0x100) as int as byte, (u / 0x100) as int as byte]
  }

  /** A UTF-16 code unit serialized most significant byte first (RFC 2781, section 3.1). */
  function Utf16BEUnit(u: char16): (b: seq<byte>)
    ensures |b| == 2 && 0x100 * b[0] as int + b[1] as int == u as int
  {
    [(u / 0x100) as int as byte, (u % 0x100) as int as byte]
  }

  const Utf8Mark: seq<byte> := [0xEF, 0xBB, 0xBF]
  const Utf16LEMark: seq<byte> := [0xFF, 0xFE]
  const Utf16BEMark: seq<byte> := [0xFE, 0xFF]

  /** Each signature is U+FEFF in the encoding it selects (section 23.8 of
      the Unicode Standard, section 6 of RFC 3629, section 3.2 of RFC 2781). */
  lemma MarksEncodeByteOrderMark()
    ensures Utf8Mark == Utf8ThreeByte(ByteOrderMark as int)
    ensures Utf16LEMark == Utf16LEUnit(ByteOrderMark)
    ensures Utf16BEMark == Utf16BEUnit(ByteOrderMark)
  {
  }

  /** `b` starts with `mark`; the length test comes first, so no byte past
      the end of `b` is compared. */
  predicate HasPrefix(b: seq<byte>, mark: seq<byte>)
  {
    |mark| <= |b| && b[..|mark|] == mark
  }

  /** A buffer with a mark starts with the mark's first byte. */
  lemma MarkFirstByte(b: seq<byte>, mark: seq<byte>)
    requires |mark| > 0 && HasPrefix(b, mark)
    ensures b[0] == mark[0]
  {
    assert b[..|mark|][0] == b[0];
  }

  /** No buffer starts with two different marks. */
  lemma MarksExclusive(b: seq<byte>)
    ensures !(HasPrefix(b, Utf8Mark) && HasPrefix(b, Utf16LEMark))
    ensures !(HasPrefix(b, Utf8Mark) && HasPrefix(b, Utf16BEMark))
    ensures !(HasPrefix(b, Utf16LEMark) && HasPrefix(b, Utf16BEMark))
  {
    if HasPrefix(b, Utf8Mark) {
      MarkFirstByte(b, Utf8Mark);
    }
    if HasPrefix(b, Utf16LEMark) {
      MarkFirstByte(b, Utf16LEMark);
    }
  }

  predicate HasMark(b: seq<byte>)
  {
    HasPrefix(b, Utf8Mark) || HasPrefix(b, Utf16LEMark) || HasPrefix(b, Utf16BEMark)
  }

  /** The codepage after the byte-order-mark sniff: a mark overrides
      `codepage`, whatever chose it. The three marks exclude each other, so
      the order of the tests decides nothing. */
  function SniffBom(ibuf: seq<byte>, codepage: Codepage): (r: Codepage)
    ensures HasPrefix(ibuf, Utf8Mark) ==> r == Utf8
    ensures HasPrefix(ibuf, Utf16LEMark) ==> r == Utf16LE
    ensures HasPrefix(ibuf, Utf16BEMark) ==> r == Utf16BE
    ensures !HasMark(ibuf) ==> r == codepage
  {
    MarksExclusive(ibuf);
    if HasPrefix(ibuf, Utf8Mark) then Utf8
    else if HasPrefix(ibuf, Utf16LEMark) then Utf16LE
    else if HasPrefix(ibuf, Utf16BEMark) then Utf16BE
    else codepage
  }

  /** The index of the first unit to keep: 1 past a leading U+FEFF, else 0.
      Once the buffer ends in its 0 terminator the index is a unit of it. */
  function BomIndex(obuf: seq<char16>): (bom: nat)
    ensures bom <= 1
    ensures |obuf| > 0 && obuf[|obuf| - 1] == 0 ==> bom < |obuf|
    ensures bom == 1 <==> |obuf| > 0 && obuf[0] == ByteOrderMark
  {
    if |obuf| > 0 && obuf[0] == ByteOrderMark then 1 else 0
  }

  /** The decoded units without one leading U+FEFF. */
  function StripBom(s: seq<char16>): (r: seq<char16>)
    ensures s == r || s == [ByteOrderMark] + r
    ensures |s| > 0 && s[0] == ByteOrderMark ==> |r| == |s| - 1
    ensures |s| == 0 || s[0] != ByteOrderMark ==> r == s
  {
    s[BomIndex(s)..]
  }

  /** Only the first U+FEFF goes: a second one right behind it stays. */
  lemma StripBomKeepsSecondMark(s: seq<char16>)
    ensures StripBom([ByteOrderMark, ByteOrderMark] + s) == [ByteOrderMark] + s
  {
  }

  /** A U+FEFF after the first unit is left where it is. */
  lemma StripBomKeepsLaterMarks(s: seq<char16>, i: nat)
    requires 0 < i < |s| && s[i] == ByteOrderMark
    ensures ByteOrderMark in StripBom(s)
  {
    if s[0] == ByteOrderMark {
      assert StripBom(s)[i - 1] == s[i];
    } else {
      assert StripBom(s)[i] == s[i];
    }
  }
}
