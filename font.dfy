/**
 * The default latin font and the decoding of a character into a font index.
 *
 * Entry i of a font is a 14-bit segment mask: bit j set lights segment j
 * (A..N, see module Segments). The default font has one entry per code from
 * space (0x20) to '~' (0x7E) and a final entry, all segments on, for every
 * other character. The slots of '.' and ':' are never drawn: those two
 * characters switch on the indicator LED instead.
 */
module Font {
  import opened Segments

  /** Number of entries a font needs so that every index decoding produces is in range. */
  const FONT_SIZE: nat := 96
  /** Font index used for every character outside space..'~'. */
  const UNKNOWN_CHAR: nat := 95
  /** Font index of '.', drawn as the decimal point indicator. */
  const DOT_INDEX: nat := 14
  /** Font index of ':', drawn as the colon indicator. */
  const COLON_INDEX: nat := 26

  /** A 14-bit segment mask: bits 14 and 15 clear. */
  type SegmentMask = m: bv16 | m <= 0x3FFF

  /** Font entries for codes 0x20..0x2F. */
  const GLYPHS_20: seq<SegmentMask> := [
    0x0000, //  0 ' ' (space)
    0x0208, //  1 '!'
    0x0202, //  2 '"'
    0x134E, //  3 '#'
    0x136D, //  4 '$'
    0x2424, //  5 '%'
    0x0CD9, //  6 '&'
    0x0200, //  7 '''
    0x0039, //  8 '('
    0x000F, //  9 ')'
    0x3E80, // 10 '*'
    0x1340, // 11 '+'
    0x2000, // 12 ','
    0x0140, // 13 '-'
    0x0000, // 14 '.'
    0x2400  // 15 '/'
  ]

  /** Font entries for codes 0x30..0x3F. */
  const GLYPHS_30: seq<SegmentMask> := [
    0x003F, // 16 '0'
    0x0406, // 17 '1'
    0x015B, // 18 '2'
    0x014F, // 19 '3'
    0x0166, // 20 '4'
    0x016D, // 21 '5'
    0x017D, // 22 '6'
    0x1401, // 23 '7'
    0x017F, // 24 '8'
    0x0167, // 25 '9'
    0x0000, // 26 ':'
    0x2200, // 27 ';'
    0x0C00, // 28 '<'
    0x0148, // 29 '='
    0x1080, // 30 '>'
    0x1103  // 31 '?'
  ]

  /** Font entries for codes 0x40..0x4F. */
  const GLYPHS_40: seq<SegmentMask> := [
    0x033B, // 32 '@'
    0x0177, // 33 'A'
    0x130F, // 34 'B'
    0x0039, // 35 'C'
    0x120F, // 36 'D'
    0x0179, // 37 'E'
    0x0171, // 38 'F'
    0x013D, // 39 'G'
    0x0176, // 40 'H'
    0x1209, // 41 'I'
    0x001E, // 42 'J'
    0x0C70, // 43 'K'
    0x0038, // 44 'L'
    0x04B6, // 45 'M'
    0x08B6, // 46 'N'
    0x003F  // 47 'O'
  ]

  /** Font entries for codes 0x50..0x5F. */
  const GLYPHS_50: seq<SegmentMask> := [
    0x0173, // 48 'P'
    0x083F, // 49 'Q'
    0x0973, // 50 'R'
    0x018D, // 51 'S'
    0x1201, // 52 'T'
    0x003E, // 53 'U'
    0x2430, // 54 'V'
    0x2836, // 55 'W'
    0x2C80, // 56 'X'
    0x1480, // 57 'Y'
    0x2409, // 58 'Z'
    0x0039, // 59 '['
    0x0880, // 60 '\'
    0x000F, // 61 ']'
    0x2800, // 62 '^'
    0x0008  // 63 '_'
  ]

  /** Font entries for codes 0x60..0x6F. */
  const GLYPHS_60: seq<SegmentMask> := [
    0x0080, // 64 '`'
    0x015F, // 65 'a'
    0x0878, // 66 'b'
    0x0158, // 67 'c'
    0x210E, // 68 'd'
    0x0079, // 69 'e'
    0x0071, // 70 'f'
    0x018F, // 71 'g'
    0x0174, // 72 'h'
    0x1000, // 73 'i'
    0x000E, // 74 'j'
    0x1E00, // 75 'k'
    0x1200, // 76 'l'
    0x1154, // 77 'm'
    0x0850, // 78 'n'
    0x015C  // 79 'o'
  ]

  /** Font entries for codes 0x70..0x7E and the unknown glyph. */
  const GLYPHS_70: seq<SegmentMask> := [
    0x0471, // 80 'p'
    0x0963, // 81 'q'
    0x0050, // 82 'r'
    0x018D, // 83 's'
    0x0078, // 84 't'
    0x001C, // 85 'u'
    0x2010, // 86 'v'
    0x2814, // 87 'w'
    0x2C80, // 88 'x'
    0x030E, // 89 'y'
    0x2409, // 90 'z'
    0x20C9, // 91 '{'
    0x1200, // 92 '|'
    0x0D09, // 93 '}'
    0x0152, // 94 '~'
    0x3FFF  // 95 Unknown
  ]

  /** The default font, in code order. Bit order in each entry: NMLKJIHGFEDCBA. */
  const FONT: seq<SegmentMask> := GLYPHS_20 + GLYPHS_30 + GLYPHS_40 + GLYPHS_50 + GLYPHS_60 + GLYPHS_70

  /** The font position of a printable character: space, or '!'..'~'; None for anything else. */
  function CharPos(ch: char): (pos: Option<nat>)
    ensures pos.Some? <==> ' ' <= ch <= '~'
    ensures pos.Some? ==> pos.value + ' ' as int == ch as int && pos.value < UNKNOWN_CHAR
  {
    if ch == ' ' then Some(0)
    else if '!' <= ch <= '~' then Some(ch as int - '!' as int + 1)
    else None
  }

  /** The font index used to draw `ch`: its position, or UNKNOWN_CHAR when it has none. */
  function FontIndex(ch: char): (i: nat)
    ensures i < FONT_SIZE
    ensures i == 0 <==> ch == ' '
    ensures i == UNKNOWN_CHAR <==> !(' ' <= ch <= '~')
    ensures i != UNKNOWN_CHAR ==> i + ' ' as int == ch as int
  {
    match CharPos(ch)
    case Some(c) => c
    case None => UNKNOWN_CHAR
  }

  /** The character drawn by font index `i` (below UNKNOWN_CHAR). */
  function FontChar(i: nat): char
    requires i < UNKNOWN_CHAR
  {
    (i + ' ' as int) as char
  }

  /** Decoding is a bijection between space..'~' and the indices 0..94. */
  lemma FontIndexRoundTrip(ch: char, i: nat)
    requires i < UNKNOWN_CHAR
    ensures FontIndex(FontChar(i)) == i
    ensures FontIndex(ch) < UNKNOWN_CHAR ==> FontChar(FontIndex(ch)) == ch
  {
  }

  /** Exactly '.' decodes to DOT_INDEX and exactly ':' to COLON_INDEX. */
  lemma IndicatorChars(ch: char)
    ensures FontIndex(ch) == DOT_INDEX <==> ch == '.'
    ensures FontIndex(ch) == COLON_INDEX <==> ch == ':'
  {
  }

  /**
   * The default font has 96 entries, space is blank, the unknown glyph lights
   * all 14 segments, the unused '.' and ':' slots are blank and no entry uses
   * bits 14-15.
   */
  lemma DefaultFontShape()
    ensures |FONT| == FONT_SIZE
    ensures FONT[0] == 0 && FONT[UNKNOWN_CHAR] == 0x3FFF
    ensures FONT[DOT_INDEX] == 0 && FONT[COLON_INDEX] == 0
    ensures forall i :: 0 <= i < |FONT| ==> FONT[i] & 0xC000 == 0
  {
  }
}
