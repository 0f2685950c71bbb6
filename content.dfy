/**
 * The content buffer operations as functions on the stored characters: what
 * print_str, rotate_left/right and shift_left/right leave in the buffer.
 * The buffer keeps its length; the class AlphaNum4 performs these with index
 * loops over arrays and is proved to produce exactly these values.
 */
module Content {

  /** `n` blanks. */
  function Spaces(n: nat): seq<char>
  {
    seq(n, _ => ' ')
  }

  /** Rotate left by k: the first k characters move to the back. */
  function RotatedLeft(s: seq<char>, k: nat): seq<char>
    requires k <= |s|
  {
    s[k..] + s[..k]
  }

  /** Rotate right by k: the last k characters move to the front. */
  function RotatedRight(s: seq<char>, k: nat): seq<char>
    requires k <= |s|
  {
    s[|s| - k..] + s[..|s| - k]
  }

  /** Shift left by k: the first k characters are dropped and k blanks enter at the back. */
  function ShiftedLeft(s: seq<char>, k: nat): seq<char>
    requires k <= |s|
  {
    s[k..] + Spaces(k)
  }

  /** Shift right by k: the last k characters are dropped and k blanks enter at the front. */
  function ShiftedRight(s: seq<char>, k: nat): seq<char>
  {
    if k >= |s| then Spaces(|s|) else Spaces(k) + s[..|s| - k]
  }

  /** A product of non-negative factors is non-negative. */
  lemma MulNonneg(a: int, b: int)
    requires 0 <= a && 0 <= b
    ensures 0 <= a * b
  {
  }

  /** Euclidean division is unique: any q, r with x == q * m + r and 0 <= r < m are x / m and x % m. */
  lemma DivModUnique(x: int, m: int, q: int, r: int)
    requires 0 < m && x == q * m + r && 0 <= r < m
    ensures x / m == q && x % m == r
  {
    var q', r' := x / m, x % m;
    assert x == q' * m + r';
    if q > q' {
      MulNonneg(q - q' - 1, m);
    } else if q < q' {
      MulNonneg(q' - q - 1, m);
    }
  }

  /** Reduction modulo m of a value within one period of [0, m). */
  lemma ModWrap(x: int, m: int)
    requires 0 < m && -m <= x < 2 * m
    ensures x % m == if x < 0 then x + m else if x < m then x else x - m
  {
    if x < 0 {
      DivModUnique(x, m, -1, x + m);
    } else if x < m {
      DivModUnique(x, m, 0, x);
    } else {
      DivModUnique(x, m, 1, x - m);
    }
  }

  /** Rotating left by k moves the character at (i + k) mod L to position i. */
  lemma RotatedLeftAt(s: seq<char>, k: nat)
    requires k <= |s|
    ensures |RotatedLeft(s, k)| == |s|
    ensures forall i :: 0 <= i < |s| ==> RotatedLeft(s, k)[i] == s[(i + k) % |s|]
  {
    forall i | 0 <= i < |s| ensures RotatedLeft(s, k)[i] == s[(i + k) % |s|] {
      ModWrap(i + k, |s|);
    }
  }

  /** Rotating right by k moves the character at (i - k) mod L to position i. */
  lemma RotatedRightAt(s: seq<char>, k: nat)
    requires k <= |s|
    ensures |RotatedRight(s, k)| == |s|
    ensures forall i :: 0 <= i < |s| ==> RotatedRight(s, k)[i] == s[(i - k) % |s|]
  {
    forall i | 0 <= i < |s| ensures RotatedRight(s, k)[i] == s[(i - k) % |s|] {
      ModWrap(i - k, |s|);
    }
  }

  /** A sequence holding old[j + k] at j < L - k and old[j] at L - k + j is the left rotation. */
  lemma RotatedLeftFrom(s: seq<char>, t: seq<char>, k: nat)
    requires k <= |s| && |t| == |s|
    requires forall j :: 0 <= j < |s| - k ==> t[j] == s[j + k]
    requires forall j :: 0 <= j < k ==> t[|s| - k + j] == s[j]
    ensures t == RotatedLeft(s, k)
  {
    forall i | 0 <= i < |s| ensures t[i] == RotatedLeft(s, k)[i] {
      if i >= |s| - k {
        assert t[|s| - k + (i - (|s| - k))] == s[i - (|s| - k)];
      }
    }
  }

  /** A sequence holding old[j - k] at j >= k and old[L - k + j] at j < k is the right rotation. */
  lemma RotatedRightFrom(s: seq<char>, t: seq<char>, k: nat)
    requires k <= |s| && |t| == |s|
    requires forall j :: k <= j < |s| ==> t[j] == s[j - k]
    requires forall j :: 0 <= j < k ==> t[j] == s[|s| - k + j]
    ensures t == RotatedRight(s, k)
  {
    forall i | 0 <= i < |s| ensures t[i] == RotatedRight(s, k)[i] {
    }
  }

  /** Rotating right undoes rotating left by the same amount, and the other way round. */
  lemma RotateRoundTrip(s: seq<char>, k: nat)
    requires k <= |s|
    ensures RotatedRight(RotatedLeft(s, k), k) == s
    ensures RotatedLeft(RotatedRight(s, k), k) == s
  {
    assert RotatedLeft(s, k)[|s| - k..] == s[..k];
    assert RotatedLeft(s, k)[..|s| - k] == s[k..];
    assert RotatedRight(s, k)[k..] == s[..|s| - k];
    assert RotatedRight(s, k)[..k] == s[|s| - k..];
  }

  /** Rotating by 0 or by the whole length leaves the content as it was. */
  lemma RotateFullCycle(s: seq<char>, k: nat)
    requires k == 0 || k == |s|
    ensures RotatedLeft(s, k) == s && RotatedRight(s, k) == s
  {
    assert s[..0] == [] && s[0..] == s && s[|s|..] == [] && s[..|s|] == s;
  }

  /** A rotation loses no character: it is a permutation of the content. */
  lemma RotatePermutes(s: seq<char>, k: nat)
    requires k <= |s|
    ensures multiset(RotatedLeft(s, k)) == multiset(s)
    ensures multiset(RotatedRight(s, k)) == multiset(s)
  {
    assert s == s[..k] + s[k..];
    assert s == s[..|s| - k] + s[|s| - k..];
  }

  /** Shifting left by k: position i receives i + k, or a blank in the last k positions. */
  lemma ShiftedLeftAt(s: seq<char>, k: nat)
    requires k <= |s|
    ensures |ShiftedLeft(s, k)| == |s|
    ensures forall i :: 0 <= i < |s| ==> ShiftedLeft(s, k)[i] == if i < |s| - k then s[i + k] else ' '
  {
  }

  /** Shifting right by k: the first k positions are blank, position i >= k receives i - k. */
  lemma ShiftedRightAt(s: seq<char>, k: nat)
    ensures |ShiftedRight(s, k)| == |s|
    ensures forall i :: 0 <= i < |s| ==> ShiftedRight(s, k)[i] == if i < k then ' ' else s[i - k]
  {
  }

  /** The rotate and shift examples of the driver's documentation, on two controllers showing "Hi Mom!!". */
  lemma DocumentedExamples()
    ensures RotatedLeft("Hi Mom!!", 3) == "Mom!!Hi "
    ensures RotatedRight("Hi Mom!!", 3) == "m!!Hi Mo"
    ensures ShiftedLeft("Hi Mom!!", 3) == "Mom!!   "
    ensures ShiftedRight("Hi Mom!!", 3) == "   Hi Mo"
  {
    assert Spaces(3) == "   ";
  }

  /** The documented print_str example: "Hi Mom!!" printed over blanks stores exactly "Hi Mom!!". */
  lemma DocumentedPrint()
    ensures StoredAsWritten(Spaces(8), "Hi Mom!!") == "Hi Mom!!"
  {
    StoredAsWrittenAscii(Spaces(8), "Hi Mom!!");
  }

  /** Number of bytes of `c` in UTF-8. */
  function Utf8Width(c: char): (w: nat)
    ensures 1 <= w <= 4
    ensures w == 1 <==> c as int < 0x80
  {
    if c as int < 0x80 then 1
    else if c as int < 0x800 then 2
    else if c as int < 0x10000 then 3
    else 4
  }

  /** The length of `s` in UTF-8 bytes: what the driver's string length reports. */
  function Utf8Len(s: seq<char>): nat
  {
    if s == [] then 0 else Utf8Width(s[0]) + Utf8Len(s[1..])
  }

  /** Whether every character of `s` is ASCII. */
  predicate IsAscii(s: seq<char>)
  {
    forall i :: 0 <= i < |s| ==> s[i] as int < 0x80
  }

  /** The byte length is never below the character count, and equals it exactly for ASCII text. */
  lemma {:induction false} Utf8LenBounds(s: seq<char>)
    ensures Utf8Len(s) >= |s|
    ensures Utf8Len(s) == |s| <==> IsAscii(s)
  {
    if s != [] {
      Utf8LenBounds(s[1..]);
      assert forall i :: 1 <= i < |s| ==> s[i] == s[1..][i - 1];
    }
  }

  /** First loop of print_str: cells below min(L, |s|) take the characters of `s` in order. */
  function ZipCopy(prev: seq<char>, s: seq<char>): seq<char>
  {
    seq(|prev|, i requires 0 <= i < |prev| => if i < |s| then s[i] else prev[i])
  }

  /** Second loop of print_str: cells from `start` on become blank. */
  function ClearFrom(t: seq<char>, start: nat): seq<char>
  {
    seq(|t|, i requires 0 <= i < |t| => if i >= start then ' ' else t[i])
  }

  /** The content after print_str(s) as the driver writes it: blanks start at the UTF-8 length of `s`. */
  function StoredAsWritten(prev: seq<char>, s: seq<char>): seq<char>
  {
    ClearFrom(ZipCopy(prev, s), Utf8Len(s))
  }

  /** The content print_str(s) is documented to store: the first L characters of `s`, then blanks. */
  function StoredIntended(len: nat, s: seq<char>): seq<char>
  {
    if |s| >= len then s[..len] else s + Spaces(len - |s|)
  }

  /**
   * As written, print_str stores the characters of `s` below min(L, |s|) and
   * blanks from the UTF-8 length of `s` on; cells in between keep their old
   * character. Input longer than the buffer is truncated without error.
   */
  lemma StoredAsWrittenAt(prev: seq<char>, s: seq<char>)
    ensures |StoredAsWritten(prev, s)| == |prev|
    ensures forall i :: 0 <= i < |prev| ==>
              StoredAsWritten(prev, s)[i]
              == if i < |s| then s[i] else if i < Utf8Len(s) then prev[i] else ' '
    ensures |s| >= |prev| ==> StoredAsWritten(prev, s) == s[..|prev|]
  {
    Utf8LenBounds(s);
  }

  /** The intended content: the characters of `s` in order, blanks after them, nothing of the old content. */
  lemma StoredIntendedAt(len: nat, s: seq<char>)
    ensures |StoredIntended(len, s)| == len
    ensures forall i :: 0 <= i < len ==> StoredIntended(len, s)[i] == if i < |s| then s[i] else ' '
  {
  }

  /** For ASCII text the code stores exactly the intended content, whatever was there before. */
  lemma StoredAsWrittenAscii(prev: seq<char>, s: seq<char>)
    requires IsAscii(s)
    ensures StoredAsWritten(prev, s) == StoredIntended(|prev|, s)
  {
    Utf8LenBounds(s);
    StoredAsWrittenAt(prev, s);
    StoredIntendedAt(|prev|, s);
  }

  /**
   * A counterexample for non-ASCII text: printing "é" (two UTF-8 bytes) over
   * "abcd" leaves the stale 'b' in cell 1 instead of a blank.
   */
  lemma StoredAsWrittenKeepsStaleCell()
    ensures StoredAsWritten("abcd", "é") == "éb  "
    ensures StoredIntended(4, "é") == "é   "
    ensures StoredAsWritten("abcd", "é") != StoredIntended(4, "é")
  {
    assert Utf8Len("é") == 2;
    assert Spaces(3) == "   ";
    assert StoredAsWritten("abcd", "é")[1] == 'b';
  }
}
