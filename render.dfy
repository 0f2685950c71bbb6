/**
 * Drawing characters into display RAM: one cell's 14 segments from a font
 * mask, the indicator location that show_dot and show_colon write, one
 * character at a logical position of the chained displays, and the render of
 * the visible window.
 */
module Render {
  import opened Segments
  import opened Font

  /** Whether segment `i` is lit by `mask`. */
  predicate MaskBit(mask: bv16, i: nat)
    requires i < 16
  {
    (mask >> i) & 1 == 1
  }

  /**
   * Switch segment `segment` of cell `digit` on or off. Every other LED keeps
   * its state, including those of the other cells sharing the addressed byte.
   */
  function IlluminateSegment(ram: DisplayRam, segment: nat, digit: nat, on: bool): (r: DisplayRam)
    requires segment < SEGMENT_COUNT && digit < DIGITS_PER_DISPLAY
    ensures LedOn(r, Resolve(segment, digit)) == on
    ensures forall a :: 0 <= a < RAM_SIZE && a != Resolve(segment, digit).address ==> r[a] == ram[a]
    ensures forall a, k :: 0 <= a < RAM_SIZE && 0 <= k < 8 && At(a, k) != Resolve(segment, digit) ==>
              LedOn(r, At(a, k)) == LedOn(ram, At(a, k))
  {
    ResolveBounds(segment, digit);
    ResolveInverse(segment, digit);
    SetLedOnly(ram, Resolve(segment, digit).address, Row(segment, digit), on);
    SetLed(ram, Resolve(segment, digit), on)
  }

  /** The RAM after segments 0..n-1 of cell `digit` have been written from `mask`, in segment order. */
  function DrawSegments(ram: DisplayRam, mask: bv16, digit: nat, n: nat): (r: DisplayRam)
    requires digit < DIGITS_PER_DISPLAY && n <= SEGMENT_COUNT
    ensures forall a :: 0 <= a < RAM_SIZE && (a % 2 == 1 || a > 12) ==> r[a] == ram[a]
  {
    if n == 0 then ram
    else
      ResolveBounds(n - 1, digit);
      IlluminateSegment(DrawSegments(ram, mask, digit, n - 1), n - 1, digit, MaskBit(mask, n - 1))
  }

  /**
   * After segments 0..n-1 are written, a segment bit of the cell shows the
   * mask when its segment is among them; every other bit keeps its value.
   */
  lemma {:induction false} DrawSegmentsBit(ram: DisplayRam, mask: bv16, digit: nat, n: nat, a: nat, k: nat)
    requires digit < DIGITS_PER_DISPLAY && n <= SEGMENT_COUNT && a < RAM_SIZE && k < 8
    ensures LedOn(DrawSegments(ram, mask, digit, n), At(a, k))
         == match SegmentAt(a, k, digit)
            case Some(s) => if s < n then MaskBit(mask, s) else LedOn(ram, At(a, k))
            case None => LedOn(ram, At(a, k))
  {
    if n > 0 {
      var prev := DrawSegments(ram, mask, digit, n - 1);
      DrawSegmentsBit(ram, mask, digit, n - 1, a, k);
      ResolveInverse(n - 1, digit);
      var loc := Resolve(n - 1, digit);
      SetLedBit(prev, loc.address, Row(n - 1, digit), MaskBit(mask, n - 1), a, k);
      if SegmentAt(a, k, digit).Some? {
        SegmentAtInverse(a, k, digit);
        if a == loc.address && k == Row(n - 1, digit) {
          assert SegmentAt(a, k, digit) == Some(n - 1);
        } else {
          ResolveInjective(n - 1, digit, SegmentAt(a, k, digit).value, digit);
        }
      }
    }
  }

  /** Bits 0..13 of a mask are unaffected by clearing bits 14 and 15. */
  lemma MaskBitLow(mask: bv16, i: nat)
    requires i < SEGMENT_COUNT
    ensures MaskBit(mask, i) == MaskBit(mask & 0x3FFF, i)
  {
  }

  /** Only segments 0..13 are drawn: bits 14 and 15 of a mask have no effect. */
  lemma {:induction false} DrawSegmentsIgnoresHighBits(ram: DisplayRam, mask: bv16, digit: nat, n: nat)
    requires digit < DIGITS_PER_DISPLAY && n <= SEGMENT_COUNT
    ensures DrawSegments(ram, mask, digit, n) == DrawSegments(ram, mask & 0x3FFF, digit, n)
  {
    if n > 0 {
      DrawSegmentsIgnoresHighBits(ram, mask, digit, n - 1);
      MaskBitLow(mask, n - 1);
    }
  }

  /**
   * Draw the glyph `segmentsToTurnOn` into cell `digit`, writing all 14
   * segments in order. Every segment bit of the cell ends up equal to its
   * mask bit, whatever it was before, and every other bit of the RAM is kept.
   */
  method IlluminateChar(ram: DisplayRam, segmentsToTurnOn: bv16, digit: nat) returns (r: DisplayRam)
    requires digit < DIGITS_PER_DISPLAY
    ensures r == DrawSegments(ram, segmentsToTurnOn, digit, SEGMENT_COUNT)
    ensures forall s :: 0 <= s < SEGMENT_COUNT ==> LedOn(r, Resolve(s, digit)) == MaskBit(segmentsToTurnOn, s)
    ensures forall a, k :: 0 <= a < RAM_SIZE && 0 <= k < 8 && !InCell(a, k, digit) ==>
              LedOn(r, At(a, k)) == LedOn(ram, At(a, k))
  {
    r := ram;
    for i := 0 to SEGMENT_COUNT
      invariant r == DrawSegments(ram, segmentsToTurnOn, digit, i)
    {
      r := IlluminateSegment(r, i, digit, MaskBit(segmentsToTurnOn, i));
    }
    forall s | 0 <= s < SEGMENT_COUNT
      ensures LedOn(r, Resolve(s, digit)) == MaskBit(segmentsToTurnOn, s)
    {
      ResolveInverse(s, digit);
      DrawSegmentsBit(ram, segmentsToTurnOn, digit, SEGMENT_COUNT, Resolve(s, digit).address, Row(s, digit));
    }
    forall a, k | 0 <= a < RAM_SIZE && 0 <= k < 8 && !InCell(a, k, digit)
      ensures LedOn(r, At(a, k)) == LedOn(ram, At(a, k))
    {
      DrawSegmentsBit(ram, segmentsToTurnOn, digit, SEGMENT_COUNT, a, k);
    }
  }

  /** Setting the indicator location changes the indicator bit and no other bit. */
  lemma SetIndicatorOnly(ram: DisplayRam, enable: bool)
    ensures forall a, k :: 0 <= a < RAM_SIZE && 0 <= k < 8 ==>
              LedOn(SetLed(ram, INDICATOR, enable), At(a, k))
              == if At(a, k) == INDICATOR then enable else LedOn(ram, At(a, k))
  {
    forall a, k | 0 <= a < RAM_SIZE && 0 <= k < 8
      ensures LedOn(SetLed(ram, INDICATOR, enable), At(a, k))
              == if At(a, k) == INDICATOR then enable else LedOn(ram, At(a, k))
    {
      SetLedBit(ram, 1, 0, enable, a, k);
      BitInjective(0, k);
    }
  }

  /** show_colon: switch the indicator location (bit 0 of byte 1) on or off; no other bit changes. */
  function ShowColon(ram: DisplayRam, enable: bool): (r: DisplayRam)
    ensures LedOn(r, INDICATOR) == enable
    ensures forall a, k :: 0 <= a < RAM_SIZE && 0 <= k < 8 && At(a, k) != INDICATOR ==>
              LedOn(r, At(a, k)) == LedOn(ram, At(a, k))
  {
    SetIndicatorOnly(ram, enable);
    SetLed(ram, Location(0x01, 1), enable)
  }

  /** show_dot: switch the indicator location (bit 0 of byte 1) on or off; no other bit changes. */
  function ShowDot(ram: DisplayRam, enable: bool): (r: DisplayRam)
    ensures LedOn(r, INDICATOR) == enable
    ensures forall a, k :: 0 <= a < RAM_SIZE && 0 <= k < 8 && At(a, k) != INDICATOR ==>
              LedOn(r, At(a, k)) == LedOn(ram, At(a, k))
  {
    SetIndicatorOnly(ram, enable);
    SetLed(ram, Location(0x01, 1), enable)
  }

  /** show_dot and show_colon write the very same location, although they are documented for two LEDs. */
  lemma DotIsColon(ram: DisplayRam, enable: bool)
    ensures ShowDot(ram, enable) == ShowColon(ram, enable)
  {
  }

  /** Whether `ch` is drawn as an indicator ('.' or ':') rather than as segments. */
  predicate IsIndicator(ch: char)
  {
    FontIndex(ch) == DOT_INDEX || FontIndex(ch) == COLON_INDEX
  }

  /** Whether `font` can draw `ch`: an indicator needs no entry, any other character needs its index in range. */
  predicate Drawable(font: seq<bv16>, ch: char)
  {
    IsIndicator(ch) || FontIndex(ch) < |font|
  }

  /** Whether `font` can draw every character of `s`. */
  predicate Covers(font: seq<bv16>, s: seq<char>)
  {
    forall i :: 0 <= i < |s| ==> Drawable(font, s[i])
  }

  /** A font of at least 96 entries draws every character. */
  lemma FullFontCovers(font: seq<bv16>, s: seq<char>)
    requires |font| >= FONT_SIZE
    ensures Covers(font, s)
  {
  }

  /** The effect on one controller of drawing `ch` into cell `digit`. */
  function DrawChar(ram: DisplayRam, ch: char, digit: nat, font: seq<bv16>): DisplayRam
    requires digit < DIGITS_PER_DISPLAY && Drawable(font, ch)
  {
    var pos := FontIndex(ch);
    if pos == DOT_INDEX then ShowDot(ram, true)
    else if pos == COLON_INDEX then ShowColon(ram, true)
    else DrawSegments(ram, font[pos], digit, SEGMENT_COUNT)
  }

  /**
   * Drawing a character: '.' and ':' switch the indicator on and touch no
   * other bit; any other character sets each segment bit of the cell from
   * its font entry and touches no bit outside the cell.
   */
  lemma DrawCharBit(ram: DisplayRam, ch: char, digit: nat, font: seq<bv16>, a: nat, k: nat)
    requires digit < DIGITS_PER_DISPLAY && Drawable(font, ch) && a < RAM_SIZE && k < 8
    ensures IsIndicator(ch) ==>
              LedOn(DrawChar(ram, ch, digit, font), At(a, k))
              == if At(a, k) == INDICATOR then true else LedOn(ram, At(a, k))
    ensures !IsIndicator(ch) ==>
              LedOn(DrawChar(ram, ch, digit, font), At(a, k))
              == match SegmentAt(a, k, digit)
                 case Some(s) => MaskBit(font[FontIndex(ch)], s)
                 case None => LedOn(ram, At(a, k))
  {
    if IsIndicator(ch) {
      SetIndicatorOnly(ram, true);
    } else {
      DrawSegmentsBit(ram, font[FontIndex(ch)], digit, SEGMENT_COUNT, a, k);
    }
  }

  /** Drawing any character leaves the indicator on if it was on: nothing but ShowDot/ShowColon can clear it. */
  lemma DrawCharKeepsIndicator(ram: DisplayRam, ch: char, digit: nat, font: seq<bv16>)
    requires digit < DIGITS_PER_DISPLAY && Drawable(font, ch)
    ensures LedOn(ram, INDICATOR) ==> LedOn(DrawChar(ram, ch, digit, font), INDICATOR)
    ensures IsIndicator(ch) ==> LedOn(DrawChar(ram, ch, digit, font), INDICATOR)
  {
    DrawCharBit(ram, ch, digit, font, 1, 0);
    assert !InCell(1, 0, digit);
  }

  /**
   * Drawing a character leaves every bit other than the indicator unchanged
   * when the bit is outside the cell, or when the character is '.' or ':'.
   */
  lemma DrawCharDisjoint(ram: DisplayRam, ch: char, digit: nat, font: seq<bv16>, a: nat, k: nat)
    requires digit < DIGITS_PER_DISPLAY && Drawable(font, ch) && a < RAM_SIZE && k < 8
    requires At(a, k) != INDICATOR && (IsIndicator(ch) || !InCell(a, k, digit))
    ensures LedOn(DrawChar(ram, ch, digit, font), At(a, k)) == LedOn(ram, At(a, k))
  {
    DrawCharBit(ram, ch, digit, font, a, k);
  }

  /** The display set after drawing `ch` at logical position `index`: controller index / 4, cell index % 4. */
  function RenderChar(displays: seq<DisplayRam>, ch: char, index: nat, font: seq<bv16>): seq<DisplayRam>
    requires index / DIGITS_PER_DISPLAY < |displays| && Drawable(font, ch)
  {
    var d := index / DIGITS_PER_DISPLAY;
    displays[d := DrawChar(displays[d], ch, index % DIGITS_PER_DISPLAY, font)]
  }

  /**
   * Drawing one character at position `index` touches only controller
   * index / 4, and there only the segment bits of cell index % 4 and the
   * indicator bit.
   */
  lemma RenderCharFrame(displays: seq<DisplayRam>, ch: char, index: nat, font: seq<bv16>, d: nat, a: nat, k: nat)
    requires index / DIGITS_PER_DISPLAY < |displays| && Drawable(font, ch)
    requires d < |displays| && a < RAM_SIZE && k < 8
    requires d != index / DIGITS_PER_DISPLAY || (!InCell(a, k, index % DIGITS_PER_DISPLAY) && At(a, k) != INDICATOR)
    ensures |RenderChar(displays, ch, index, font)| == |displays|
    ensures LedOn(RenderChar(displays, ch, index, font)[d], At(a, k)) == LedOn(displays[d], At(a, k))
  {
    if d == index / DIGITS_PER_DISPLAY {
      DrawCharBit(displays[d], ch, index % DIGITS_PER_DISPLAY, font, a, k);
    }
  }

  /**
   * Draw `ch` at logical position `index` of the chained displays. `index`
   * is an unsigned byte; its controller must exist and `font` must cover `ch`.
   */
  method PrintCharAt(displays: array<DisplayRam>, ch: char, index: nat, font: seq<bv16>)
    requires index < 256 && index / DIGITS_PER_DISPLAY < displays.Length && Drawable(font, ch)
    modifies displays
    ensures displays[..] == RenderChar(old(displays[..]), ch, index, font)
  {
    var charPos := CharPos(ch);
    var displayIndex := index / 4;
    var pos: nat;
    match charPos {
      case Some(14) =>
        displays[displayIndex] := ShowDot(displays[displayIndex], true);
        return;
      case Some(26) =>
        displays[displayIndex] := ShowColon(displays[displayIndex], true);
        return;
      case Some(c) =>
        pos := c;
      case None =>
        pos := UNKNOWN_CHAR;
    }
    var segmentsToTurnOn := font[pos];
    var cell := IlluminateChar(displays[displayIndex], segmentsToTurnOn, index % 4);
    displays[displayIndex] := cell;
  }

  /** The display set after positions 0..n-1 of `content` have been drawn in order. */
  function RenderWindow(displays: seq<DisplayRam>, content: seq<char>, font: seq<bv16>, n: nat): (r: seq<DisplayRam>)
    requires n <= |content| && n <= DIGITS_PER_DISPLAY * |displays| && Covers(font, content[..n])
    ensures |r| == |displays|
  {
    if n == 0 then displays
    else
      assert content[..n - 1] == content[..n][..n - 1];
      assert content[n - 1] == content[..n][n - 1];
      RenderChar(RenderWindow(displays, content, font, n - 1), content[n - 1], n - 1, font)
  }

  /** A prefix of a covered sequence is covered. */
  lemma CoversPrefix(font: seq<bv16>, content: seq<char>, m: nat, n: nat)
    requires m <= n <= |content| && Covers(font, content[..n])
    ensures Covers(font, content[..m])
    ensures forall i :: 0 <= i < n ==> Drawable(font, content[i])
  {
    assert forall i :: 0 <= i < m ==> content[..m][i] == content[..n][i];
    assert forall i :: 0 <= i < n ==> content[i] == content[..n][i];
  }

  /**
   * One render step: drawing position n - 1 changes only controller
   * (n - 1) / 4, by drawing that character into cell (n - 1) % 4.
   */
  lemma RenderWindowStep(displays: seq<DisplayRam>, content: seq<char>, font: seq<bv16>, n: nat, d: nat)
    requires 0 < n <= |content| && n <= DIGITS_PER_DISPLAY * |displays| && Covers(font, content[..n])
    requires d < |displays|
    ensures Covers(font, content[..n - 1]) && Drawable(font, content[n - 1])
    ensures RenderWindow(displays, content, font, n)[d]
         == if d == (n - 1) / DIGITS_PER_DISPLAY
            then DrawChar(RenderWindow(displays, content, font, n - 1)[d], content[n - 1],
                          (n - 1) % DIGITS_PER_DISPLAY, font)
            else RenderWindow(displays, content, font, n - 1)[d]
  {
    CoversPrefix(font, content, n - 1, n);
  }

  /**
   * A render step keeps a non-indicator bit of controller d when position
   * n - 1 is on another controller, holds '.' or ':', or is another cell.
   */
  lemma RenderStepKeeps(displays: seq<DisplayRam>, content: seq<char>, font: seq<bv16>, n: nat, d: nat, a: nat, k: nat)
    requires 0 < n <= |content| && n <= DIGITS_PER_DISPLAY * |displays| && Covers(font, content[..n])
    requires d < |displays| && a < RAM_SIZE && k < 8 && At(a, k) != INDICATOR
    requires d != (n - 1) / DIGITS_PER_DISPLAY || IsIndicator(content[n - 1])
             || !InCell(a, k, (n - 1) % DIGITS_PER_DISPLAY)
    ensures Covers(font, content[..n - 1])
    ensures LedOn(RenderWindow(displays, content, font, n)[d], At(a, k))
         == LedOn(RenderWindow(displays, content, font, n - 1)[d], At(a, k))
  {
    RenderWindowStep(displays, content, font, n, d);
    if d == (n - 1) / DIGITS_PER_DISPLAY {
      DrawCharDisjoint(RenderWindow(displays, content, font, n - 1)[d], content[n - 1],
                       (n - 1) % DIGITS_PER_DISPLAY, font, a, k);
    }
  }

  /**
   * After the window 0..n-1 is rendered, each segment bit of a cell i < n
   * holding an ordinary character shows that character's font entry: cell i
   * lives on controller i / 4 in cell i % 4, and later cells never overwrite it.
   */
  lemma {:induction false} RenderWindowCell(displays: seq<DisplayRam>, content: seq<char>, font: seq<bv16>, n: nat,
                                            i: nat, a: nat, k: nat)
    requires n <= |content| && n <= DIGITS_PER_DISPLAY * |displays| && Covers(font, content[..n])
    requires i < n && a < RAM_SIZE && k < 8 && InCell(a, k, i % DIGITS_PER_DISPLAY)
    requires !IsIndicator(content[i])
    ensures FontIndex(content[i]) < |font|
    ensures LedOn(RenderWindow(displays, content, font, n)[i / DIGITS_PER_DISPLAY], At(a, k))
         == MaskBit(font[FontIndex(content[i])], SegmentAt(a, k, i % DIGITS_PER_DISPLAY).value)
  {
    if i == n - 1 {
      RenderStepCell(displays, content, font, n, a, k);
    } else {
      RenderStepOtherCell(displays, content, font, n, i, a, k);
      RenderWindowCell(displays, content, font, n - 1, i, a, k);
    }
  }

  /** The render step at position n - 1 sets each segment bit of its cell from the font entry of its character. */
  lemma RenderStepCell(displays: seq<DisplayRam>, content: seq<char>, font: seq<bv16>, n: nat, a: nat, k: nat)
    requires 0 < n <= |content| && n <= DIGITS_PER_DISPLAY * |displays| && Covers(font, content[..n])
    requires a < RAM_SIZE && k < 8 && InCell(a, k, (n - 1) % DIGITS_PER_DISPLAY)
    requires !IsIndicator(content[n - 1])
    ensures FontIndex(content[n - 1]) < |font|
    ensures LedOn(RenderWindow(displays, content, font, n)[(n - 1) / DIGITS_PER_DISPLAY], At(a, k))
         == MaskBit(font[FontIndex(content[n - 1])], SegmentAt(a, k, (n - 1) % DIGITS_PER_DISPLAY).value)
  {
    RenderWindowStep(displays, content, font, n, (n - 1) / DIGITS_PER_DISPLAY);
    DrawCharBit(RenderWindow(displays, content, font, n - 1)[(n - 1) / DIGITS_PER_DISPLAY], content[n - 1],
                (n - 1) % DIGITS_PER_DISPLAY, font, a, k);
  }

  /** The render step at position n - 1 keeps every segment bit of an earlier cell i. */
  lemma RenderStepOtherCell(displays: seq<DisplayRam>, content: seq<char>, font: seq<bv16>, n: nat, i: nat, a: nat, k: nat)
    requires 0 < n <= |content| && n <= DIGITS_PER_DISPLAY * |displays| && Covers(font, content[..n])
    requires i < n - 1 && a < RAM_SIZE && k < 8 && InCell(a, k, i % DIGITS_PER_DISPLAY)
    ensures Covers(font, content[..n - 1])
    ensures LedOn(RenderWindow(displays, content, font, n)[i / DIGITS_PER_DISPLAY], At(a, k))
         == LedOn(RenderWindow(displays, content, font, n - 1)[i / DIGITS_PER_DISPLAY], At(a, k))
  {
    CellPosition(i, a, k);
    if (n - 1) / DIGITS_PER_DISPLAY == i / DIGITS_PER_DISPLAY {
      OtherCellDisjoint(i, n - 1, a, k);
    }
    RenderStepKeeps(displays, content, font, n, i / DIGITS_PER_DISPLAY, a, k);
  }

  /**
   * After the window 0..n-1 is rendered, a bit of controller d that is not a
   * segment bit of a rendered cell and not the indicator has its old value.
   * The segment bits of cell n of controller d are bits n % 4 and n % 4 + 4
   * of the even bytes 0..12, so such a bit is any bit of an odd byte or a
   * byte above 12, or bit k of an even byte when cell 4 * d + k % 4 is not
   * rendered.
   */
  lemma {:induction false} RenderWindowFrame(displays: seq<DisplayRam>, content: seq<char>, font: seq<bv16>, n: nat,
                                             d: nat, a: nat, k: nat)
    requires n <= |content| && n <= DIGITS_PER_DISPLAY * |displays| && Covers(font, content[..n])
    requires d < |displays| && a < RAM_SIZE && k < 8 && At(a, k) != INDICATOR
    requires !(a % 2 == 0 && a <= 12 && DIGITS_PER_DISPLAY * d + k % DIGITS_PER_DISPLAY < n)
    ensures LedOn(RenderWindow(displays, content, font, n)[d], At(a, k)) == LedOn(displays[d], At(a, k))
  {
    if n > 0 {
      RenderStepKeeps(displays, content, font, n, d, a, k);
      RenderWindowFrame(displays, content, font, n - 1, d, a, k);
    }
  }

  /** Whether one of the rendered positions 0..n-1 of controller `d` holds '.' or ':'. */
  predicate IndicatorDrawn(content: seq<char>, n: nat, d: nat)
    requires n <= |content|
  {
    exists i :: 0 <= i < n && i / DIGITS_PER_DISPLAY == d && IsIndicator(content[i])
  }

  /**
   * After the window 0..n-1 is rendered, the indicator of controller d is on
   * exactly when it was on before or a '.' or ':' was drawn on d: rendering
   * never switches an indicator off, and nothing else switches it on.
   */
  lemma {:induction false} RenderWindowIndicator(displays: seq<DisplayRam>, content: seq<char>, font: seq<bv16>, n: nat,
                                                 d: nat)
    requires n <= |content| && n <= DIGITS_PER_DISPLAY * |displays| && Covers(font, content[..n])
    requires d < |displays|
    ensures LedOn(RenderWindow(displays, content, font, n)[d], INDICATOR)
            <==> LedOn(displays[d], INDICATOR) || IndicatorDrawn(content, n, d)
  {
    if n > 0 {
      RenderIndicatorStep(displays, content, font, n, d);
      IndicatorDrawnStep(content, n, d);
      RenderWindowIndicator(displays, content, font, n - 1, d);
    }
  }

  /** One render step switches the indicator of controller d on exactly when it draws '.' or ':' there. */
  lemma RenderIndicatorStep(displays: seq<DisplayRam>, content: seq<char>, font: seq<bv16>, n: nat, d: nat)
    requires 0 < n <= |content| && n <= DIGITS_PER_DISPLAY * |displays| && Covers(font, content[..n])
    requires d < |displays|
    ensures Covers(font, content[..n - 1])
    ensures LedOn(RenderWindow(displays, content, font, n)[d], INDICATOR)
            <==> LedOn(RenderWindow(displays, content, font, n - 1)[d], INDICATOR)
                 || ((n - 1) / DIGITS_PER_DISPLAY == d && IsIndicator(content[n - 1]))
  {
    RenderWindowStep(displays, content, font, n, d);
    if (n - 1) / DIGITS_PER_DISPLAY == d {
      DrawCharBit(RenderWindow(displays, content, font, n - 1)[d], content[n - 1],
                  (n - 1) % DIGITS_PER_DISPLAY, font, 1, 0);
      IndicatorOutsideCells((n - 1) % DIGITS_PER_DISPLAY);
    }
  }

  /** An indicator is drawn on d among positions 0..n-1 exactly when among 0..n-2 or at n - 1. */
  lemma IndicatorDrawnStep(content: seq<char>, n: nat, d: nat)
    requires 0 < n <= |content|
    ensures IndicatorDrawn(content, n, d)
            <==> IndicatorDrawn(content, n - 1, d)
                 || ((n - 1) / DIGITS_PER_DISPLAY == d && IsIndicator(content[n - 1]))
  {
    if IndicatorDrawn(content, n, d) && !((n - 1) / DIGITS_PER_DISPLAY == d && IsIndicator(content[n - 1])) {
      var i :| 0 <= i < n && i / DIGITS_PER_DISPLAY == d && IsIndicator(content[i]);
      assert IndicatorDrawn(content, n - 1, d);
    }
  }

  /**
   * A position holding '.' or ':' draws no segments: after the window is
   * rendered, every segment bit of its cell keeps the value it had before,
   * so a glyph drawn there earlier stays visible.
   */
  lemma {:induction false} RenderWindowIndicatorCell(displays: seq<DisplayRam>, content: seq<char>, font: seq<bv16>,
                                                     n: nat, i: nat, a: nat, k: nat)
    requires n <= |content| && n <= DIGITS_PER_DISPLAY * |displays| && Covers(font, content[..n])
    requires i < n && a < RAM_SIZE && k < 8 && InCell(a, k, i % DIGITS_PER_DISPLAY)
    requires IsIndicator(content[i])
    ensures LedOn(RenderWindow(displays, content, font, n)[i / DIGITS_PER_DISPLAY], At(a, k))
         == LedOn(displays[i / DIGITS_PER_DISPLAY], At(a, k))
  {
    if i == n - 1 {
      RenderStepIndicatorCell(displays, content, font, n, a, k);
    } else {
      RenderStepOtherCell(displays, content, font, n, i, a, k);
      RenderWindowIndicatorCell(displays, content, font, n - 1, i, a, k);
    }
  }

  /**
   * When position n - 1 holds '.' or ':', the segment bits of its cell still
   * hold their values from before the window was rendered.
   */
  lemma RenderStepIndicatorCell(displays: seq<DisplayRam>, content: seq<char>, font: seq<bv16>, n: nat, a: nat, k: nat)
    requires 0 < n <= |content| && n <= DIGITS_PER_DISPLAY * |displays| && Covers(font, content[..n])
    requires a < RAM_SIZE && k < 8 && InCell(a, k, (n - 1) % DIGITS_PER_DISPLAY)
    requires IsIndicator(content[n - 1])
    ensures LedOn(RenderWindow(displays, content, font, n)[(n - 1) / DIGITS_PER_DISPLAY], At(a, k))
         == LedOn(displays[(n - 1) / DIGITS_PER_DISPLAY], At(a, k))
  {
    CellPosition(n - 1, a, k);
    RenderStepKeeps(displays, content, font, n, (n - 1) / DIGITS_PER_DISPLAY, a, k);
    RenderWindowFrame(displays, content, font, n - 1, (n - 1) / DIGITS_PER_DISPLAY, a, k);
  }

  /** A segment bit of cell i % 4 is not the indicator, and its bit number gives back position i with i / 4. */
  lemma CellPosition(i: nat, a: nat, k: nat)
    requires InCell(a, k, i % DIGITS_PER_DISPLAY)
    ensures At(a, k) != INDICATOR
    ensures DIGITS_PER_DISPLAY * (i / DIGITS_PER_DISPLAY) + k % DIGITS_PER_DISPLAY == i
  {
  }

  /** Two different positions on the same controller occupy disjoint cells. */
  lemma OtherCellDisjoint(i: nat, j: nat, a: nat, k: nat)
    requires i != j && i / DIGITS_PER_DISPLAY == j / DIGITS_PER_DISPLAY && InCell(a, k, i % DIGITS_PER_DISPLAY)
    ensures !InCell(a, k, j % DIGITS_PER_DISPLAY)
  {
  }
}
