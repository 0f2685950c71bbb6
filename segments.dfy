/**
 * The HT16K33 display RAM as seen by the driver, and the segment address
 * resolver that maps one segment of one character cell to a bit of that RAM.
 *
 * Each controller owns 16 bytes of display RAM. A buffer location is a pair
 * (address byte, data mask); the data mask produced here always has exactly
 * one bit set. The controller's own operation "update display buffer" is
 * modelled as setting or clearing the mask's bits in the addressed byte.
 */
module Segments {

  datatype Option<T> = None | Some(value: T)

  /** Number of bytes of display RAM per controller. */
  const RAM_SIZE: nat := 16

  /** The segments of a 14-segment glyph, by ordinal (A..N). */
  const SEGMENT_COUNT: nat := 14
  const SEGMENT_A: nat := 0
  const SEGMENT_B: nat := 1
  const SEGMENT_C: nat := 2
  const SEGMENT_D: nat := 3
  const SEGMENT_E: nat := 4
  const SEGMENT_F: nat := 5
  const SEGMENT_G: nat := 6
  const SEGMENT_H: nat := 7
  const SEGMENT_I: nat := 8
  const SEGMENT_J: nat := 9
  const SEGMENT_K: nat := 10
  const SEGMENT_L: nat := 11
  const SEGMENT_M: nat := 12
  const SEGMENT_N: nat := 13

  /** Character cells per controller. */
  const DIGITS_PER_DISPLAY: nat := 4

  /** A location in one controller's display RAM: an address byte and a data mask. */
  datatype Location = Location(address: nat, data: bv8)

  type DisplayRam = ram: seq<bv8> | |ram| == RAM_SIZE witness seq(RAM_SIZE, _ => 0)

  /** The mask with only bit `k` set, written out so that no proof shifts by a symbolic amount. */
  function Bit(k: nat): bv8
    requires k < 8
  {
    if k == 0 then 0x01 else if k == 1 then 0x02 else if k == 2 then 0x04 else if k == 3 then 0x08
    else if k == 4 then 0x10 else if k == 5 then 0x20 else if k == 6 then 0x40 else 0x80
  }

  /** The table is the driver's `1 << row`. */
  lemma BitIsShift(k: nat)
    requires k < 8
    ensures Bit(k) == (1 as bv8) << k
  {
  }

  /** The single-bit location at bit `k` of byte `address`. */
  function At(address: nat, k: nat): Location
    requires k < 8
  {
    Location(address, Bit(k))
  }

  /** Whether any bit of `loc` is lit in `ram`. */
  predicate LedOn(ram: seq<bv8>, loc: Location)
    requires loc.address < |ram|
  {
    ram[loc.address] & loc.data != 0
  }

  /**
   * The controller's "update display buffer" operation: switch the bits of
   * `loc.data` in byte `loc.address` on or off, and nothing else.
   */
  function SetLed(ram: seq<bv8>, loc: Location, on: bool): (r: seq<bv8>)
    requires loc.address < |ram|
    ensures |r| == |ram|
    ensures forall a :: 0 <= a < |ram| && a != loc.address ==> r[a] == ram[a]
    ensures loc.data != 0 ==> LedOn(r, loc) == on
  {
    var b := ram[loc.address];
    ram[loc.address := if on then b | loc.data else b & !loc.data]
  }

  lemma BitInjective(j: nat, k: nat)
    requires j < 8 && k < 8
    ensures (Bit(j) == Bit(k)) == (j == k)
    ensures Bit(j) != 0
  {
  }

  /** Setting one single-bit location changes that bit and no other bit of the RAM. */
  lemma SetLedBit(ram: seq<bv8>, address: nat, j: nat, on: bool, a: nat, k: nat)
    requires address < |ram| && a < |ram| && j < 8 && k < 8
    ensures LedOn(SetLed(ram, At(address, j), on), At(a, k))
         == if a == address && k == j then on else LedOn(ram, At(a, k))
  {
  }

  /** Setting bit `j` of byte `address` leaves every other bit of the RAM, of any byte, as it was. */
  lemma SetLedOnly(ram: seq<bv8>, address: nat, j: nat, on: bool)
    requires address < |ram| && j < 8
    ensures forall a, k :: 0 <= a < |ram| && 0 <= k < 8 && At(a, k) != At(address, j) ==>
              LedOn(SetLed(ram, At(address, j), on), At(a, k)) == LedOn(ram, At(a, k))
  {
    forall a, k | 0 <= a < |ram| && 0 <= k < 8 && At(a, k) != At(address, j)
      ensures LedOn(SetLed(ram, At(address, j), on), At(a, k)) == LedOn(ram, At(a, k))
    {
      SetLedBit(ram, address, j, on, a, k);
    }
  }

  /**
   * The common line of each segment, as a table: the top set A..G uses
   * commons 0..6 in order; in the bottom set H and I are wired crosswise to
   * commons 1 and 0, and J..N use commons 2..6.
   */
  function CommonLine(segment: nat): nat
    requires segment < SEGMENT_COUNT
  {
    if segment == SEGMENT_H then 1
    else if segment == SEGMENT_I then 0
    else segment % 7
  }

  /** The row of a segment in cell `digit`: the cell, moved up 4 rows for the bottom set. */
  function Row(segment: nat, digit: nat): nat
  {
    digit % DIGITS_PER_DISPLAY + if segment > SEGMENT_G then 4 else 0
  }

  /**
   * The resolver, following the driver's arithmetic step by step: fold the
   * segment onto 7 commons, apply the two wiring exceptions, pick the row,
   * offset by 16 bytes per group of four cells and carry a row above 7 into
   * the next byte. `digit` is an unsigned byte whose `digit / 4 * 16` must not
   * overflow. The contract states the closed form: the common-line table,
   * and a row that never exceeds 7, so the carry never happens.
   */
  function Resolve(segment: nat, digit: nat): (loc: Location)
    requires segment < SEGMENT_COUNT && digit < 64
    ensures loc.address == CommonLine(segment) * 2 + digit / 4 * 16
    ensures Row(segment, digit) < 8 && loc.data == Bit(Row(segment, digit))
    ensures loc.address < 256
  {
    var com := if segment > 6 then segment - 7 else segment;
    var com := if segment == SEGMENT_I then 0 else com;
    var com := if segment == SEGMENT_H then 1 else com;
    var row := digit % 4;
    var row := if segment > SEGMENT_G then row + 4 else row;
    var offset := digit / 4 * 16;
    var adr := com * 2 + offset;
    var adr := if row > 7 then adr + 1 else adr;
    var row := if row > 7 then row - 8 else row;
    Location(adr, Bit(row))
  }

  /** The segment bits of cell `digit` (0..3): bits `digit` and `digit + 4` of the even bytes 0..12. */
  predicate InCell(address: nat, k: nat, digit: nat)
  {
    address % 2 == 0 && address <= 12 && (k == digit || k == digit + 4)
  }

  /** The segment wired to bit `k` of byte `address` in cell `digit`, if any: the inverse of Resolve. */
  function SegmentAt(address: nat, k: nat, digit: nat): (s: Option<nat>)
    requires digit < DIGITS_PER_DISPLAY
    ensures s.Some? <==> InCell(address, k, digit)
    ensures s.Some? ==> s.value < SEGMENT_COUNT
  {
    if address % 2 != 0 || address > 12 then None
    else if k == digit then Some(address / 2)
    else if k == digit + 4 then
      var com := address / 2;
      Some(if com == 0 then SEGMENT_I else if com == 1 then SEGMENT_H else com + 7)
    else None
  }

  /** Every segment of cells 0..3 lands on a segment bit of its cell, which maps back to it. */
  lemma ResolveInverse(segment: nat, digit: nat)
    requires segment < SEGMENT_COUNT && digit < DIGITS_PER_DISPLAY
    ensures Resolve(segment, digit) == At(Resolve(segment, digit).address, Row(segment, digit))
    ensures InCell(Resolve(segment, digit).address, Row(segment, digit), digit)
    ensures SegmentAt(Resolve(segment, digit).address, Row(segment, digit), digit) == Some(segment)
  {
  }

  /** Every segment bit of a cell is reached by the segment SegmentAt names. */
  lemma SegmentAtInverse(address: nat, k: nat, digit: nat)
    requires digit < DIGITS_PER_DISPLAY && InCell(address, k, digit)
    ensures k < 8
    ensures Resolve(SegmentAt(address, k, digit).value, digit) == At(address, k)
    ensures Row(SegmentAt(address, k, digit).value, digit) == k
  {
  }

  /**
   * Within one controller (cells 0..3) distinct (segment, cell) pairs resolve
   * to distinct locations: the 56 segment LEDs never share a bit.
   */
  lemma ResolveInjective(s1: nat, d1: nat, s2: nat, d2: nat)
    requires s1 < SEGMENT_COUNT && d1 < DIGITS_PER_DISPLAY
    requires s2 < SEGMENT_COUNT && d2 < DIGITS_PER_DISPLAY
    ensures Resolve(s1, d1) == Resolve(s2, d2) ==> s1 == s2 && d1 == d2
  {
    if Resolve(s1, d1) == Resolve(s2, d2) {
      BitInjective(Row(s1, d1), Row(s2, d2));
      ResolveInverse(s1, d1);
      ResolveInverse(s2, d2);
    }
  }

  /** The location that both show_dot and show_colon write: bit 0 of byte 1. */
  const INDICATOR: Location := Location(0x01, 1)

  /** Segment locations of cells 0..3 are single bits of the even bytes 0..12, never the indicator. */
  lemma ResolveBounds(segment: nat, digit: nat)
    requires segment < SEGMENT_COUNT && digit < DIGITS_PER_DISPLAY
    ensures Resolve(segment, digit).address % 2 == 0
    ensures Resolve(segment, digit).address <= 12 < RAM_SIZE
    ensures Resolve(segment, digit) != INDICATOR
    ensures exists k :: 0 <= k < 8 && Resolve(segment, digit).data == Bit(k)
  {
    assert Resolve(segment, digit).data == Bit(Row(segment, digit));
  }

  /** The indicator is bit 0 of byte 1, which belongs to no cell. */
  lemma IndicatorOutsideCells(digit: nat)
    ensures INDICATOR == At(1, 0)
    ensures !InCell(INDICATOR.address, 0, digit)
  {
  }
}
