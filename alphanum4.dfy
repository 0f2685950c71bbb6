/**
 * AlphaNum4: several chained HT16K33 controllers driven as one text display.
 *
 * The object stores CONTENT_LEN characters and owns NUM_DISPLAYS controllers.
 * Only the first 4 * NUM_DISPLAYS stored characters are visible: stored
 * position i is drawn on controller i / 4, cell i % 4. Every operation
 * rebuilds or edits the stored content and then redraws what it changed.
 */
module AlphaNum {
  import opened Segments
  import opened Font
  import opened Render
  import opened Content

  function Min(a: nat, b: nat): nat
  {
    if a < b then a else b
  }

  class AlphaNum4 {
    /** CONTENT_LEN: the number of stored characters. */
    const contentLen: nat
    /** The controllers, in chain order: NUM_DISPLAYS display RAMs. */
    const displays: array<DisplayRam>
    /** The font in use, borrowed for the lifetime of the object. */
    const font: seq<bv16>
    /** The stored characters. */
    var content: array<char>

    /** The content keeps its length; cell indices of the visible window fit in a byte. */
    ghost predicate Valid()
      reads this
    {
      content.Length == contentLen && DIGITS_PER_DISPLAY * displays.Length <= 256
    }

    /** The number of positions drawn by a full render: the first 4 * NUM_DISPLAYS stored characters. */
    function WindowLen(): nat
    {
      Min(contentLen, DIGITS_PER_DISPLAY * displays.Length)
    }

    /** Take ownership of `controllers`, store blanks and use the default font. */
    constructor New(contentLen: nat, controllers: seq<DisplayRam>)
      requires DIGITS_PER_DISPLAY * |controllers| <= 256
      ensures Valid() && fresh(displays) && fresh(content)
      ensures this.contentLen == contentLen && displays[..] == controllers
      ensures content[..] == Spaces(contentLen) && font == FONT
    {
      this.contentLen := contentLen;
      displays := new DisplayRam[|controllers|](i requires 0 <= i < |controllers| => controllers[i]);
      content := new char[contentLen](_ => ' ');
      font := FONT;
    }

    /** Take ownership of `controllers`, store blanks and use `font`. */
    constructor NewWithFont(contentLen: nat, controllers: seq<DisplayRam>, font: seq<bv16>)
      requires DIGITS_PER_DISPLAY * |controllers| <= 256
      ensures Valid() && fresh(displays) && fresh(content)
      ensures this.contentLen == contentLen && displays[..] == controllers
      ensures content[..] == Spaces(contentLen) && this.font == font
    {
      this.contentLen := contentLen;
      displays := new DisplayRam[|controllers|](i requires 0 <= i < |controllers| => controllers[i]);
      content := new char[contentLen](_ => ' ');
      this.font := font;
    }

    /** Draw every visible position, in order, from the stored content. */
    method PrintContent()
      requires Valid() && Covers(font, content[..][..WindowLen()])
      modifies displays
      ensures displays[..] == RenderWindow(old(displays[..]), content[..], font, WindowLen())
    {
      var n := WindowLen();
      for i := 0 to n
        invariant displays[..] == RenderWindow(old(displays[..]), content[..], font, i)
      {
        CoversPrefix(font, content[..], i + 1, n);
        CoversPrefix(font, content[..], i, n);
        PrintCharAt(displays, content[i], i, font);
      }
    }

    /**
     * Store the characters of `s` from position 0, as many as fit; blank the
     * positions from the UTF-8 length of `s` on; then draw the visible window.
     */
    method PrintStr(s: string)
      requires Valid() && Covers(font, StoredAsWritten(content[..], s)[..WindowLen()])
      modifies content, displays
      ensures Valid()
      ensures content[..] == StoredAsWritten(old(content[..]), s)
      ensures displays[..] == RenderWindow(old(displays[..]), content[..], font, WindowLen())
    {
      ghost var prev := content[..];
      var i := 0;
      while i < content.Length && i < |s|
        invariant 0 <= i <= content.Length && i <= |s|
        invariant forall j :: 0 <= j < content.Length ==> content[j] == if j < i then s[j] else prev[j]
        modifies content
      {
        content[i] := s[i];
        i := i + 1;
      }
      assert content[..] == ZipCopy(prev, s);
      ghost var copied := content[..];
      i := Utf8Len(s);
      while i < content.Length
        invariant forall j :: 0 <= j < content.Length ==>
                    content[j] == if Utf8Len(s) <= j < i then ' ' else copied[j]
        modifies content
      {
        content[i] := ' ';
        i := i + 1;
      }
      assert content[..] == ClearFrom(copied, Utf8Len(s));
      assert displays[..] == old(displays[..]);
      PrintContent();
    }

    /** Store `ch` at position `index` and draw that one position. */
    method PrintChar(ch: char, index: nat)
      requires Valid() && index < contentLen && index / DIGITS_PER_DISPLAY < displays.Length
      requires Drawable(font, ch)
      modifies content, displays
      ensures Valid()
      ensures content[..] == old(content[..])[index := ch]
      ensures displays[..] == RenderChar(old(displays[..]), ch, index, font)
    {
      content[index] := ch;
      PrintCharAt(displays, ch, index, font);
    }

    /** Rotate the content `shiftAmount` positions to the left, then draw the visible window. */
    method RotateLeft(shiftAmount: nat)
      requires Valid() && shiftAmount <= contentLen
      requires Covers(font, RotatedLeft(content[..], shiftAmount)[..WindowLen()])
      modifies this, displays
      ensures Valid() && fresh(content)
      ensures content[..] == RotatedLeft(old(content[..]), shiftAmount)
      ensures displays[..] == RenderWindow(old(displays[..]), content[..], font, WindowLen())
    {
      var next := new char[contentLen](_ => ' ');
      var i := 0;
      while i < contentLen - shiftAmount
        invariant 0 <= i <= contentLen - shiftAmount
        invariant forall j :: 0 <= j < i ==> next[j] == content[j + shiftAmount]
        modifies next
      {
        next[i] := content[i + shiftAmount];
        i := i + 1;
      }
      i := 0;
      while i < shiftAmount
        invariant 0 <= i <= shiftAmount
        invariant forall j :: 0 <= j < contentLen - shiftAmount ==> next[j] == content[j + shiftAmount]
        invariant forall j :: 0 <= j < i ==> next[contentLen - shiftAmount + j] == content[j]
        modifies next
      {
        next[contentLen - shiftAmount + i] := content[i];
        i := i + 1;
      }
      RotatedLeftFrom(content[..], next[..], shiftAmount);
      content := next;
      assert displays[..] == old(displays[..]);
      PrintContent();
    }

    /** Rotate the content `shiftAmount` positions to the right, then draw the visible window. */
    method RotateRight(shiftAmount: nat)
      requires Valid() && shiftAmount <= contentLen
      requires Covers(font, RotatedRight(content[..], shiftAmount)[..WindowLen()])
      modifies this, displays
      ensures Valid() && fresh(content)
      ensures content[..] == RotatedRight(old(content[..]), shiftAmount)
      ensures displays[..] == RenderWindow(old(displays[..]), content[..], font, WindowLen())
    {
      var next := new char[contentLen](_ => ' ');
      var i := shiftAmount;
      while i < contentLen
        invariant shiftAmount <= i <= contentLen
        invariant forall j :: shiftAmount <= j < i ==> next[j] == content[j - shiftAmount]
        modifies next
      {
        next[i] := content[i - shiftAmount];
        i := i + 1;
      }
      i := 0;
      while i < shiftAmount
        invariant 0 <= i <= shiftAmount
        invariant forall j :: shiftAmount <= j < contentLen ==> next[j] == content[j - shiftAmount]
        invariant forall j :: 0 <= j < i ==> next[j] == content[contentLen - shiftAmount + j]
        modifies next
      {
        next[i] := content[contentLen - shiftAmount + i];
        i := i + 1;
      }
      RotatedRightFrom(content[..], next[..], shiftAmount);
      content := next;
      assert displays[..] == old(displays[..]);
      PrintContent();
    }

    /** Shift the content `shiftAmount` positions to the left, blanking the tail, then draw the visible window. */
    method ShiftLeft(shiftAmount: nat)
      requires Valid() && shiftAmount <= contentLen
      requires Covers(font, ShiftedLeft(content[..], shiftAmount)[..WindowLen()])
      modifies this, displays
      ensures Valid() && fresh(content)
      ensures content[..] == ShiftedLeft(old(content[..]), shiftAmount)
      ensures displays[..] == RenderWindow(old(displays[..]), content[..], font, WindowLen())
    {
      var next := new char[contentLen](_ => ' ');
      var i := 0;
      while i < contentLen - shiftAmount
        invariant 0 <= i <= contentLen - shiftAmount
        invariant forall j :: 0 <= j < i ==> next[j] == content[j + shiftAmount]
        invariant forall j :: i <= j < contentLen ==> next[j] == ' '
        modifies next
      {
        next[i] := content[i + shiftAmount];
        i := i + 1;
      }
      i := contentLen - shiftAmount;
      while i < contentLen
        invariant contentLen - shiftAmount <= i <= contentLen
        invariant forall j :: 0 <= j < contentLen - shiftAmount ==> next[j] == content[j + shiftAmount]
        invariant forall j :: contentLen - shiftAmount <= j < contentLen ==> next[j] == ' '
        modifies next
      {
        next[i] := ' ';
        i := i + 1;
      }
      assert next[..] == ShiftedLeft(content[..], shiftAmount);
      content := next;
      assert displays[..] == old(displays[..]);
      PrintContent();
    }

    /** Shift the content `shiftAmount` positions to the right, blanking the head, then draw the visible window. */
    method ShiftRight(shiftAmount: nat)
      requires Valid()
      requires Covers(font, ShiftedRight(content[..], shiftAmount)[..WindowLen()])
      modifies this, displays
      ensures Valid() && fresh(content)
      ensures content[..] == ShiftedRight(old(content[..]), shiftAmount)
      ensures displays[..] == RenderWindow(old(displays[..]), content[..], font, WindowLen())
    {
      var next := new char[contentLen](_ => ' ');
      var i := shiftAmount;
      while i < contentLen
        invariant forall j :: 0 <= j < contentLen ==>
                    next[j] == if shiftAmount <= j < i then content[j - shiftAmount] else ' '
        modifies next
      {
        next[i] := content[i - shiftAmount];
        i := i + 1;
      }
      i := 0;
      while i < Min(shiftAmount, contentLen)
        invariant forall j :: 0 <= j < contentLen ==>
                    next[j] == if shiftAmount <= j then content[j - shiftAmount] else ' '
        modifies next
      {
        next[i] := ' ';
        i := i + 1;
      }
      ShiftedRightAt(content[..], shiftAmount);
      assert next[..] == ShiftedRight(content[..], shiftAmount);
      content := next;
      assert displays[..] == old(displays[..]);
      PrintContent();
    }
  }

  /**
   * The documented usage on two controllers: print "Hi Mom!!", then rotate
   * left by 3 and back, with the default font.
   */
  method DocumentedUsage(first: DisplayRam, second: DisplayRam)
  {
    var display := new AlphaNum4.New(8, [first, second]);
    FullFontCovers(FONT, StoredAsWritten(display.content[..], "Hi Mom!!")[..display.WindowLen()]);
    display.PrintStr("Hi Mom!!");
    DocumentedPrint();
    assert display.content[..] == "Hi Mom!!";
    FullFontCovers(FONT, RotatedLeft(display.content[..], 3)[..display.WindowLen()]);
    display.RotateLeft(3);
    DocumentedExamples();
    assert display.content[..] == "Mom!!Hi ";
    FullFontCovers(FONT, RotatedRight(display.content[..], 3)[..display.WindowLen()]);
    display.RotateRight(3);
    RotateRoundTrip("Hi Mom!!", 3);
    assert display.content[..] == "Hi Mom!!";
  }
}
