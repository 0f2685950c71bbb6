# sparkfun-alphanum4 in Dafny

A model of the `sparkfun-alphanum4` driver, which runs one or more chained
HT16K33 LED controllers, each wired to four 14-segment character cells, as
one text display. The model covers three parts of `src/lib.rs`.

- **The segment address resolver** (`Segments`). This is `illuminate_segment`'s
  arithmetic. It maps a segment (A..N, ordinals 0..13) of cell `digit` to
  a location in the controller's display RAM: an address byte and a data bit.
  The model mirrors the code's steps: fold onto 7 commons, the H/I wiring
  exceptions, the bottom-set row shift and the row carry. Its contract gives
  the closed form through an independent common-line table. `SegmentAt`
  inverts the resolver, which gives injectivity and surjectivity onto each
  cell's 14 bits.
- **Glyph decoding and drawing** (`Font`, `Render`). This is the 96-entry
  default font, the char-to-index decoding, `illuminate_char`, `show_dot`,
  `show_colon` and `print_char_at`. For each of these, the model states
  which bits of which controller end up on and which bits are left alone.
- **The content buffer** (`Content`, `AlphaNum`). The class `AlphaNum4`
  keeps the stored characters in an `array<char>` and the controllers in an
  `array` of display RAM values. It has `print_str`, `print_char`,
  `print_content`, `rotate_left/right` and `shift_left/right`, written with
  the source's index loops. Each is proved to leave the content equal to a
  function of the old content (`RotatedLeft`, `ShiftedRight`, …). The
  operations that redraw the window are also proved to leave the displays
  equal to the render fold `RenderWindow`; `print_char`, which draws one
  position, leaves them equal to `RenderChar`.
  Lemmas give the meaning of those functions: the modular index formulas, the
  rotate round trip, permutation, the documented "Hi Mom!!" examples, and
  what each rendered cell shows.

The HT16K33 controller is represented only by its 16-byte display RAM
(`DisplayRam`, a `seq<bv8>`). The crate's `update_display_buffer` becomes
`SetLed`: set or clear the data mask's bits in the addressed byte.
`CONTENT_LEN` and `NUM_DISPLAYS` are the constructor's `contentLen` and the
length of the controller sequence. The font is a `seq<bv16>` given to the
constructor.

No operation returns an error: every driver function returns `()`, and
whatever `update_display_buffer` returns is discarded. The operations can
panic; the model turns those panics into preconditions (see "## Left out").

The method `AlphaNum.DocumentedUsage` walks through the documented example
of src/lib.rs:368-374 with the class. It owns two controllers, prints
"Hi Mom!!" and rotates left by 3, giving "Mom!!Hi ". It then rotates right
by 3, which restores "Hi Mom!!". Each of these contents is asserted, and
each assertion is proved.

## Model

| member | source | states |
|---|---|---|
| `Segments.SetLed` | src/lib.rs:85 | the controller update changes only the addressed byte; for a single-bit mask (the only kind the driver passes) that bit ends up on or off as asked |
| `Segments.SetLedOnly` | src/lib.rs:85 | writing a single-bit location leaves every other bit of the RAM as it was, including the other bits of the same byte |
| `Segments.SetLedBit` | src/lib.rs:85 | writing a single-bit location changes exactly that bit of the RAM and no other |
| `Segments.BitInjective` | src/lib.rs:81 | `1 << row` is a distinct, non-zero mask for each row 0..7 |
| `Segments.BitIsShift` | src/lib.rs:81 | the single-bit mask used for row k is `1 << k` |
| `Segments.Resolve` | src/lib.rs:51-81 | address = common line × 2 + digit / 4 × 16, with the common from the wiring table (H on 1, I on 0, others ordinal mod 7); the data bit is `1 << (digit % 4 + 4·[bottom set])`; the row never exceeds 7, so the carry branch never fires |
| `Segments.SegmentAt` | src/lib.rs:51-81 | the inverse wiring table: exactly the bits digit and digit+4 of the even bytes 0..12 belong to cell `digit`, each to one segment |
| `Segments.ResolveInverse` | src/lib.rs:51-81 | every segment of cells 0..3 resolves to a single-bit location of its cell that maps back to the same segment |
| `Segments.SegmentAtInverse` | src/lib.rs:51-81 | every segment bit of a cell is the location the resolver gives for the segment the table names (surjectivity) |
| `Segments.ResolveInjective` | src/lib.rs:51-81 | distinct (segment, cell) pairs within a controller never share a location |
| `Segments.ResolveBounds` | src/lib.rs:51-81 | for cells 0..3 the address is even and at most 12 (inside the 16-byte RAM), the data is one bit, and the location is never the indicator |
| `Segments.IndicatorOutsideCells` | src/lib.rs:304-305 | the indicator location (byte 0x01, bit 0) belongs to no cell |
| `Font.CharPos` | src/lib.rs:264-273 | space and '!'..'~' get a position, equal to the char's offset from space (so 1..94 for '!'..'~'); every other char gets none |
| `Font.FontIndex` | src/lib.rs:279-292 | the index is always below 96; it is 0 exactly for space, UNKNOWN_CHAR (95) exactly outside space..'~', and otherwise the char's offset from space |
| `Font.FontIndexRoundTrip` | src/lib.rs:271-272 | decoding is a bijection between space..'~' and indices 0..94 |
| `Font.IndicatorChars` | src/lib.rs:279-289 | index 14 is produced by '.' only and index 26 by ':' only |
| `Font.DefaultFontShape` | src/lib.rs:89-187 | the default font has 96 entries, entry 0 is blank, entry 95 lights all 14 segments, the '.' and ':' slots are blank, and no entry uses bits 14-15 |
| `Render.IlluminateSegment` | src/lib.rs:47-86 | the segment's location shows the requested state; every other LED keeps its state, including the other cells' bits in the same byte |
| `Render.DrawSegments` | src/lib.rs:37-44 | writing segments of a cell never changes an odd byte or a byte above 12 |
| `Render.DrawSegmentsBit` | src/lib.rs:37-44 | after writing segments 0..n-1, each of those segments' bits equals its mask bit; all other bits keep their value |
| `Render.MaskBitLow` | src/lib.rs:42 | mask bits 0..13 are independent of bits 14-15 |
| `Render.DrawSegmentsIgnoresHighBits` | src/lib.rs:37-44 | drawing a mask and drawing it with bits 14-15 cleared give the same RAM |
| `Render.IlluminateChar` | src/lib.rs:33-45 | after the loop, every segment bit of the cell equals its mask bit whatever it was before, and every bit outside the cell is unchanged |
| `Render.SetIndicatorOnly` | src/lib.rs:304-310 | writing the indicator location changes that bit and no other |
| `Render.ShowColon` | src/lib.rs:300-311 | the location `show_colon` writes (byte 0x01, bit 0) is set to `enable`; no other bit changes |
| `Render.ShowDot` | src/lib.rs:314-325 | the location `show_dot` writes (byte 0x01, bit 0, the same as `show_colon`) is set to `enable`; no other bit changes |
| `Render.DotIsColon` | src/lib.rs:300-325 | `show_dot` and `show_colon` write the identical location, though their doc comments name the colon LED and the dot LED |
| `Render.FullFontCovers` | src/lib.rs:294 | a font of at least 96 entries can draw every char without indexing past its end |
| `Render.DrawCharBit` | src/lib.rs:264-296 | '.' and ':' switch the indicator on and touch nothing else; any other char sets each segment bit of its cell from its font entry and touches nothing outside the cell |
| `Render.DrawCharKeepsIndicator` | src/lib.rs:279-296 | drawing a character never switches the indicator off, and drawing '.' or ':' leaves it on |
| `Render.DrawCharDisjoint` | src/lib.rs:275-296 | drawing a char keeps every non-indicator bit outside its cell, and for '.' or ':' every non-indicator bit at all |
| `Render.RenderCharFrame` | src/lib.rs:275-296 | drawing at position `index` changes only controller index / 4, and only its cell index % 4 and its indicator bit |
| `Render.PrintCharAt` | src/lib.rs:255-297 | the display set becomes that of drawing `ch` on controller index / 4, cell index % 4 |
| `Render.RenderWindow` | src/lib.rs:352-361 | the fold draws positions 0..n-1 in order and keeps the number of controllers; what each rendered bit shows is stated by `Render.RenderWindowCell`, `Render.RenderWindowFrame`, `Render.RenderWindowIndicator` and `Render.RenderWindowIndicatorCell` |
| `Render.RenderWindowStep` | src/lib.rs:352-361 | rendering position n - 1 changes only controller (n - 1) / 4, by drawing that char into cell (n - 1) % 4 |
| `Render.RenderStepKeeps` | src/lib.rs:352-361 | a render step keeps a non-indicator bit of a controller when it draws on another controller, draws '.' or ':', or draws another cell |
| `Render.RenderStepCell` | src/lib.rs:352-361 | the render step at position n - 1 (an ordinary char) sets each segment bit of its cell from its font entry |
| `Render.RenderStepOtherCell` | src/lib.rs:352-361 | the render step at position n - 1 keeps every segment bit of each earlier position's cell |
| `Render.RenderWindowCell` | src/lib.rs:352-361 | after rendering cells 0..n-1, each segment bit of cell i (an ordinary char) shows its font entry on controller i / 4, cell i % 4 |
| `Render.RenderWindowFrame` | src/lib.rs:352-361 | after rendering cells 0..n-1, any non-indicator bit outside those cells keeps its old value |
| `Render.RenderWindowIndicator` | src/lib.rs:352-361 | after rendering, a controller's indicator is on exactly when it was on before or a '.' or ':' was drawn on that controller |
| `Render.RenderIndicatorStep` | src/lib.rs:352-361 | a render step switches a controller's indicator on exactly when it draws '.' or ':' on that controller, and never switches it off |
| `Render.IndicatorDrawnStep` | src/lib.rs:352-361 | a '.' or ':' is among positions 0..n-1 of a controller exactly when it is among 0..n-2 or at n - 1 |
| `Render.RenderWindowIndicatorCell` | src/lib.rs:279-289 | a position holding '.' or ':' draws no segments, so every segment bit of its cell keeps its value from before the render |
| `Render.RenderStepIndicatorCell` | src/lib.rs:279-289 | when position n - 1 holds '.' or ':', the segment bits of its cell still hold their values from before the render |
| `Content.RotatedLeftAt` | src/lib.rs:376-395 | rotating left by k puts old[(i + k) mod L] at position i |
| `Content.RotatedRightAt` | src/lib.rs:410-430 | rotating right by k puts old[(i - k) mod L] at position i |
| `Content.RotatedLeftFrom` | src/lib.rs:376-395 | the two copy loops of rotate_left (old[j + k] to j, then old[j] to L - k + j) build exactly the left rotation |
| `Content.RotatedRightFrom` | src/lib.rs:410-430 | the two copy loops of rotate_right (old[j - k] to j from k on, then old[L - k + j] to j) build exactly the right rotation |
| `Content.RotateRoundTrip` | src/lib.rs:376-430 | rotate_right(k) undoes rotate_left(k) and vice versa |
| `Content.RotateFullCycle` | src/lib.rs:376-430 | rotating by 0 or by L leaves the content unchanged |
| `Content.RotatePermutes` | src/lib.rs:376-430 | a rotation is a permutation: no character is lost |
| `Content.ShiftedLeftAt` | src/lib.rs:443-459 | shifting left by k puts old[i + k] at i < L - k and a blank after; the length is kept |
| `Content.ShiftedRightAt` | src/lib.rs:472-486 | shifting right by any k puts blanks below k and old[i - k] from k on; the length is kept |
| `Content.DocumentedExamples` | src/lib.rs:368-470 | the four doc examples on "Hi Mom!!": "Mom!!Hi ", "m!!Hi Mo", "Mom!!   ", "   Hi Mo" |
| `Content.DocumentedPrint` | src/lib.rs:370-372 | printing "Hi Mom!!" over blank content stores exactly "Hi Mom!!" |
| `Content.Utf8Width` | src/lib.rs:339 | a char takes 1..4 UTF-8 bytes, exactly 1 for ASCII |
| `Content.Utf8LenBounds` | src/lib.rs:339 | the byte length `s.len()` is at least the char count, and equal to it exactly for ASCII text |
| `Content.StoredAsWrittenAt` | src/lib.rs:334-341 | print_str stores chars of `s` below min(L, chars), blanks from the byte length on, keeps old cells in between, and truncates long input without error |
| `Content.StoredIntendedAt` | src/lib.rs:332-333 | the documented result: the chars of `s` in order, then blanks, none of the old content |
| `Content.StoredAsWrittenAscii` | src/lib.rs:334-341 | for ASCII input the code stores exactly the documented result, whatever was stored before |
| `Content.StoredAsWrittenKeepsStaleCell` | src/lib.rs:339 | printing "é" over "abcd" leaves "éb  ", not "é   " |
| `AlphaNum.AlphaNum4.New` | src/lib.rs:201-207 | owns the given controllers, stores CONTENT_LEN blanks and uses the default font |
| `AlphaNum.AlphaNum4.NewWithFont` | src/lib.rs:214-220 | owns the given controllers, stores CONTENT_LEN blanks and uses the given font |
| `AlphaNum.AlphaNum4.PrintContent` | src/lib.rs:352-361 | renders exactly the first min(CONTENT_LEN, 4 × NUM_DISPLAYS) cells in order, cell i on controller i / 4, cell i % 4 |
| `AlphaNum.AlphaNum4.PrintStr` | src/lib.rs:334-343 | the content becomes the as-written print_str result and the window is re-rendered from it |
| `AlphaNum.AlphaNum4.PrintChar` | src/lib.rs:346-350 | only position `index` of the content changes, to `ch`; the displays change only by drawing `ch` there |
| `AlphaNum.AlphaNum4.RotateLeft` | src/lib.rs:376-395 | needs k ≤ CONTENT_LEN; the content becomes its left rotation by k; the window is re-rendered |
| `AlphaNum.AlphaNum4.RotateRight` | src/lib.rs:410-430 | needs k ≤ CONTENT_LEN; the content becomes its right rotation by k; the window is re-rendered |
| `AlphaNum.AlphaNum4.ShiftLeft` | src/lib.rs:443-459 | needs k ≤ CONTENT_LEN; the content becomes its left shift by k with blank fill; the window is re-rendered |
| `AlphaNum.AlphaNum4.ShiftRight` | src/lib.rs:472-486 | for any k the content becomes its right shift by k with blank fill; the window is re-rendered |

## Left out

- The I2C bus traits (`Write`, `WriteRead`) and the default address constants: no logic.
- The internals of the `ht16k33` crate. `update_display_buffer` is modelled
  as setting or clearing bits of a 16-byte RAM (`SetLed`). Staging, flushing
  and `DisplayDataAddress`/`DisplayData::from_bits_truncate` are not
  modelled. Truncation never applies: for cells 0..3 the address is below 16
  and the data is one bit (`ResolveBounds`).
- The accessors `display_at`, `display_at_mut`, `displays`, `displays_mut`, `display`, `display_mut`: plain borrows.
- Lifetimes, const generics and `no_std`. `CONTENT_LEN` and `NUM_DISPLAYS`
  are runtime values fixed at construction. The borrowed font is an
  immutable `seq<bv16>`, which behaves the same because it is never written.
- AlphaNum.AlphaNum4.PrintContent: the `i as u8` wrap is not modelled. `Valid` requires 4 × NUM_DISPLAYS ≤ 256, so every visible index fits in a byte.
- Segments.Resolve: requires `digit < 64`, because above that the `u8` product `digit / 4 * 16` overflows.
- Render.IlluminateChar: requires `digit < 4`. The driver only passes `index % 4`; a larger digit would produce addresses from 16 up, which only the crate's truncation could handle.
- Panics become preconditions. `print_char` needs `index < CONTENT_LEN` and
  `index / 4 < NUM_DISPLAYS`; rotations and `shift_left` need
  `k ≤ CONTENT_LEN`; every drawing operation needs the font to cover the
  characters it draws (`Drawable`, `Covers`). A full 96-entry font covers
  everything (`FullFontCovers`). The content that `print_char` writes before a
  controller-index panic is therefore not modelled.
- The rotate and shift methods fill a fresh array and make it the content,
  where Rust copies the new array value into the field. Nothing else refers
  to the content array, so this is not observable.
- Bus transaction order is not modelled. Only the final RAM state of every
  controller is stated, although `DrawSegments` and `RenderWindow` do follow
  the source's write order.

## Findings

| source | as written | input that shows it | evidently intended | confidence | as-written member | corrected member |
|---|---|---|---|---|---|---|
| src/lib.rs:339 | `print_str` blanks the content from `s.len()`, the UTF-8 byte length of `s` | `print_str("é")` over stored "abcd" (CONTENT_LEN 4): cell 1 keeps 'b', giving "éb  " | blank every position after the stored chars ("Clear the rest of the content"), giving "é   " | medium, not executed | `Content.StoredAsWrittenKeepsStaleCell` | `Content.StoredIntendedAt` |

`AlphaNum4.PrintStr` models the code as written. `Content.StoredAsWrittenAscii`
proves that the written and intended behaviours agree on all ASCII input.
