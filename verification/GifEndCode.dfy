/** How many bits the compressor has written at each size of its table, and for which sizes the end
    code, which is written without a width check, fills the last byte exactly. */
module GifEndCode {
  import opened JsBits
  import opened LsbBits
  import opened Lzw

  /** The size of the table after a clear code. */
  function FirstSize(k: nat): nat { Pow2(k) + 2 }

  /** The width of the code that is written while the table has the given size. */
  function WidthAt(k: nat, size: nat): nat
    requires size >= FirstSize(k)
    decreases size
  {
    if size == FirstSize(k) then k + 1
    else
      var w := WidthAt(k, size - 1);
      if size - 1 == Pow2(w) then w + 1 else w
  }

  /** The bits that have been written when the table has reached the given size. */
  function BitsAt(k: nat, size: nat): nat
    requires size >= FirstSize(k)
    decreases size
  {
    if size == FirstSize(k) then k + 1 else BitsAt(k, size - 1) + WidthAt(k, size - 1)
  }

  // --- The encoder keeps to these numbers ---

  ghost predicate OnSchedule(e: Encoder, k: nat) {
    WellFormed(e, k) && e.width == WidthAt(k, |e.table|)
  }

  lemma MissOnSchedule(e: Encoder, k: nat, c: nat)
    requires OnSchedule(e, k) && c < Pow2(k) && e.s + [c] !in e.table
    ensures OnSchedule(Miss(e, c), k)
  {
    hide Pow2;
    MissWellFormed(e, k, c);
  }

  lemma HitOnSchedule(e: Encoder, k: nat, c: nat)
    requires OnSchedule(e, k) && c < Pow2(k) && e.s + [c] in e.table
    ensures OnSchedule(e.(s := e.s + [c]), k)
  {
    hide Pow2;
  }

  lemma Known(e: Encoder, k: nat, pixels: seq<nat>)
    requires WellFormed(e, k) && Pixels(pixels, k)
    ensures e.s in e.table && forall i :: 0 <= i < |pixels| ==> [pixels[i]] in e.table
  {
    forall i | 0 <= i < |pixels| ensures [pixels[i]] in e.table {
      assert e.table[pixels[i]] == [pixels[i]];
    }
  }

  /** The number of bits depends on the pixels only through the final size of the table, as long as
      that is not full. */
  lemma {:induction false} EncodedBits(e: Encoder, k: nat, pixels: seq<nat>)
    requires OnSchedule(e, k) && Pixels(pixels, k)
    ensures OnSchedule(Final(e, pixels), k) && |Final(e, pixels).table| >= |e.table|
    ensures (Known(e, k, pixels);
             var size := |Final(e, pixels).table|;
             size < MAX_SIZE ==>
               |Encode(e, pixels)| + BitsAt(k, |e.table|) == BitsAt(k, size) + WidthAt(k, size))
    decreases |pixels|
  {
    hide WellFormed, Code, Low, BitsAt, WidthAt;
    Known(e, k, pixels);
    if |pixels| == 0 {
      LowLength(Code(e.table, e.s), e.width);
    } else {
      var c, rest := pixels[0], pixels[1..];
      if e.s + [c] in e.table {
        HitOnSchedule(e, k, c);
        EncodedBits(e.(s := e.s + [c]), k, rest);
      } else {
        MissOnSchedule(e, k, c);
        EncodedBits(Miss(e, c), k, rest);
        Known(Miss(e, c), k, rest);
        LowLength(Code(e.table, e.s), e.width);
        SizeAtLeast(e, k);
        if |e.table| < MAX_SIZE { BitsNext(k, |e.table|); }
      }
    }
  }

  lemma LowLength(x: nat, n: nat)
    ensures |Low(x, n)| == n
  {
  }

  lemma SizeAtLeast(e: Encoder, k: nat)
    requires WellFormed(e, k)
    ensures FirstSize(k) <= |e.table| <= MAX_SIZE
  {
  }

  lemma BitsNext(k: nat, size: nat)
    requires size >= FirstSize(k)
    ensures BitsAt(k, size + 1) == BitsAt(k, size) + WidthAt(k, size)
  {
  }

  // --- Sizes that are powers of two ---

  /** While the first codes are written the width is k + 1. */
  lemma {:induction false} FirstStretch(k: nat, n: nat)
    requires k >= 2 && FirstSize(k) + n <= Pow2(k + 1)
    ensures WidthAt(k, FirstSize(k) + n) == k + 1
    ensures BitsAt(k, FirstSize(k) + n) == (n + 1) * (k + 1)
  {
    hide Pow2;
    if n == 0 {
    } else {
      FirstStretch(k, n - 1);
    }
  }

  /** Between one power of two and the next the width is that of the next. */
  lemma {:induction false} NextStretch(k: nat, w: nat, n: nat)
    requires w > k >= 2 && Pow2(w) >= FirstSize(k) && WidthAt(k, Pow2(w)) == w && n < Pow2(w)
    ensures WidthAt(k, Pow2(w) + 1 + n) == w + 1
    ensures BitsAt(k, Pow2(w) + 1 + n) == BitsAt(k, Pow2(w)) + w + n * (w + 1)
  {
    Doubles(w);
    hide Pow2;
    if n == 0 {
    } else {
      NextStretch(k, w, n - 1);
      OneTimesMore(n - 1, w + 1);
    }
  }

  lemma OneTimesMore(n: int, w: int)
    ensures (n + 1) * w == n * w + w
  {
  }

  lemma Doubles(n: nat)
    ensures Pow2(n + 1) == 2 * Pow2(n) && Pow2(n) > 0
  {
  }

  lemma EightDivides(n: nat)
    requires n >= 3
    ensures Pow2(n) == 8 * Pow2(n - 3)
  {
    assert Pow2(n - 1) == 2 * Pow2(n - 2) && Pow2(n - 2) == 2 * Pow2(n - 3);
  }

  /** The bits in the last byte once the end code has been written, when the table has as many
      entries as there are codes of w bits: w for the alphabets of three bits or more, and four more
      than that for the alphabet of two bits. */
  function Excess(k: nat, w: nat): nat { if k == 2 then w + 4 else w }

  lemma {:induction false} BitsAtPower(k: nat, w: nat)
    requires k >= 2 && w > k && w >= 4
    ensures Pow2(w) >= FirstSize(k) && WidthAt(k, Pow2(w)) == w
    ensures (BitsAt(k, Pow2(w)) + 2 * w) % 8 == Excess(k, w) % 8
    decreases w
  {
    hide BitsAt, WidthAt, Pow2, FirstSize;
    if w == k + 1 {
      FirstPower(k);
      EightDivides(k);
      LowEnd(k, Pow2(k - 3), Pow2(k));
    } else if w == 4 {
      AtSixteen();
    } else {
      BitsAtPower(k, w - 1);
      NextPower(k, w - 1);
      EightDivides(w - 1);
      Grows(BitsAt(k, Pow2(w - 1)), w, Pow2(w - 4), Pow2(w - 1));
      OneMore(BitsAt(k, Pow2(w - 1)) + 2 * (w - 1), Excess(k, w - 1));
    }
  }

  lemma AtSixteen()
    ensures Pow2(4) >= FirstSize(2) && WidthAt(2, Pow2(4)) == 4 && BitsAt(2, Pow2(4)) == 40
  {
    FirstPower(2);
    assert Pow2(2) == 4 && Pow2(3) == 8;
    NextPower(2, 3);
  }

  lemma OneMore(x: nat, y: nat)
    requires x % 8 == y % 8
    ensures (x + 1) % 8 == (y + 1) % 8
  {
  }

  lemma FirstPower(k: nat)
    requires k >= 2
    ensures Pow2(k + 1) >= FirstSize(k) && WidthAt(k, Pow2(k + 1)) == k + 1
    ensures BitsAt(k, Pow2(k + 1)) == (Pow2(k) - 1) * (k + 1)
  {
    Doubles(k);
    Pow2Monotone(2, k);
    assert Pow2(2) == 4;
    FirstStretch(k, Pow2(k) - 2);
  }

  lemma NextPower(k: nat, w: nat)
    requires w > k >= 2 && Pow2(w) >= FirstSize(k) && WidthAt(k, Pow2(w)) == w
    ensures Pow2(w + 1) >= FirstSize(k) && WidthAt(k, Pow2(w + 1)) == w + 1
    ensures BitsAt(k, Pow2(w + 1)) == BitsAt(k, Pow2(w)) + w + (Pow2(w) - 1) * (w + 1)
  {
    Doubles(w);
    NextStretch(k, w, Pow2(w) - 1);
  }

  lemma ModuloEight(x: int, y: int, z: int)
    requires x == 8 * y + z
    ensures x % 8 == z % 8
  {
  }

  lemma Factors(m: int, w: int, p: int)
    requires p == 8 * m
    ensures (p - 1) * w == 8 * (m * w) - w
  {
  }

  lemma LowEnd(k: nat, m: nat, p: nat)
    requires p == 8 * m
    ensures ((p - 1) * (k + 1) + 2 * (k + 1)) % 8 == (k + 1) % 8
  {
    Factors(m, k + 1, p);
    ModuloEight((p - 1) * (k + 1) + 2 * (k + 1), m * (k + 1), k + 1);
  }

  lemma Grows(b: nat, w: nat, m: nat, p: nat)
    requires w > 0 && p == 8 * m
    ensures (b + (w - 1) + (p - 1) * w + 2 * w) % 8 == (b + 2 * (w - 1) + 1) % 8
  {
    Factors(m, w, p);
    ModuloEight(b + (w - 1) + (p - 1) * w + 2 * w, m * w, b + 2 * (w - 1) + 1);
  }

  // --- The critical sizes ---

  /** The size of the table at which the end code is missed: 16 or 256, or none. */
  function CriticalSize(k: nat): nat {
    if k == 2 then 16 else if k <= 7 then 256 else 0
  }

  lemma {:induction false} PowersDiffer(v: nat, w: nat)
    ensures Pow2(v) == Pow2(w) <==> v == w
  {
    if v == 0 || w == 0 {
    } else {
      PowersDiffer(v - 1, w - 1);
    }
  }

  /** The decoder looks one bit further and finds no padding there exactly at the critical size. */
  lemma Critical(k: nat, size: nat)
    requires 2 <= k <= 11 && FirstSize(k) <= size <= MAX_SIZE
    ensures size == Pow2(WidthAt(k, size)) && (BitsAt(k, size) + 2 * WidthAt(k, size)) % 8 == 0 <==>
      size == CriticalSize(k)
  {
    hide BitsAt, WidthAt;
    var w := WidthAt(k, size);
    assert Pow2(4) == 16 && Pow2(8) == 256;
    AtLeastFirst(k, size);
    if size == Pow2(w) {
      if w >= 12 { Pow2Monotone(12, w); PowersOfTwo(); }
      if w == 3 {
        SizeEight();
      } else {
        BitsAtPower(k, w);
      }
      PowersDiffer(w, 4);
      PowersDiffer(w, 8);
    } else if size == CriticalSize(k) {
      BitsAtPower(k, if k == 2 then 4 else 8);
    }
  }

  lemma {:induction false} AtLeastFirst(k: nat, size: nat)
    requires size >= FirstSize(k)
    ensures WidthAt(k, size) > k
    decreases size
  {
    if size <= FirstSize(k) {
    } else {
      AtLeastFirst(k, size - 1);
    }
  }

  lemma SizeEight()
    ensures FirstSize(2) == 6 && BitsAt(2, 8) == 9 && WidthAt(2, 8) == 3
  {
    FirstPower(2);
    assert Pow2(3) == 8 && Pow2(2) == 4;
  }

  // --- How many pixels lead to a size ---

  function Triangle(n: nat): nat {
    if n == 0 then 0 else Triangle(n - 1) + n
  }

  /** No text is longer than the number of entries that have been added, and one. */
  ghost predicate Short(e: Encoder, k: nat) {
    && |e.table| >= FirstSize(k)
    && |e.s| <= |e.table| - FirstSize(k) + 1
    && forall i :: 0 <= i < |e.table| ==> |e.table[i]| <= |e.table| - FirstSize(k) + 1
  }

  /** The pixels that a table of a given size, not yet full, can have taken. */
  lemma {:induction false} PixelsAt(e: Encoder, k: nat, pixels: seq<nat>)
    requires Short(e, k)
    ensures var f := Final(e, pixels);
            |f.table| < MAX_SIZE ==>
              && Short(f, k) && |f.table| >= |e.table|
              && |pixels| + Triangle(|e.table| - FirstSize(k)) + |e.s|
                 <= Triangle(|f.table| - FirstSize(k)) + |f.s|
    ensures |Final(e, pixels).table| >= |e.table|
    decreases |pixels|
  {
    hide Pow2;
    if |pixels| == 0 {
    } else {
      var c, rest := pixels[0], pixels[1..];
      if e.s + [c] in e.table {
        PixelsAt(e.(s := e.s + [c]), k, rest);
      } else if |e.table| < MAX_SIZE {
        PixelsAt(Miss(e, c), k, rest);
      } else {
        NeverSmaller(Miss(e, c), rest);
      }
    }
  }

  lemma {:induction false} NeverSmaller(e: Encoder, pixels: seq<nat>)
    ensures |Final(e, pixels).table| >= |e.table|
    decreases |pixels|
  {
    if |pixels| == 0 {
    } else {
      var c, rest := pixels[0], pixels[1..];
      if e.s + [c] in e.table { NeverSmaller(e.(s := e.s + [c]), rest); } else { NeverSmaller(Miss(e, c), rest); }
    }
  }

  lemma {:induction false} TriangleMonotone(m: nat, n: nat)
    requires m <= n
    ensures Triangle(m) <= Triangle(n)
  {
    if m >= n {
    } else {
      TriangleMonotone(m, n - 1);
    }
  }

  // --- Images of one colour ---

  function Same(p: nat, n: nat): (s: seq<nat>)
    ensures |s| == n && forall i :: 0 <= i < n ==> s[i] == p
  {
    seq(n, _ => p)
  }

  /** The table after m misses on pixels that are all p: the texts of 2 to m + 1 pixels are new. */
  function SameTable(k: nat, p: nat, m: nat): (d: Dictionary)
    ensures |d| == FirstSize(k) + m
    ensures forall i :: 0 <= i < FirstSize(k) ==> d[i] == [i]
    ensures forall i :: FirstSize(k) <= i < FirstSize(k) + m ==> d[i] == Same(p, i - FirstSize(k) + 2)
  {
    if m == 0 then InitialTable(k) else SameTable(k, p, m - 1) + [Same(p, m + 1)]
  }

  lemma SameKnown(k: nat, p: nat, m: nat, j: nat)
    requires j >= 1
    ensures Same(p, j) + [p] == Same(p, j + 1)
    ensures Same(p, j + 1) in SameTable(k, p, m) <==> j <= m
  {
    hide Pow2;
    var d := SameTable(k, p, m);
    if j <= m { assert d[FirstSize(k) + j - 1] == Same(p, j + 1); }
    if i :| 0 <= i < |d| && d[i] == Same(p, j + 1) {
      assert |d[i]| == j + 1;
    }
  }

  /** Pixels that are all the same: m misses, and a match of j pixels, take 1 + 2 + ... + m + j. */
  lemma {:induction false} SamePixels(e: Encoder, k: nat, p: nat, m: nat, j: nat, n: nat) returns (m': nat, j': nat)
    requires e.table == SameTable(k, p, m) && e.s == Same(p, j) && 1 <= j <= m + 1
    requires FirstSize(k) + m + n < MAX_SIZE
    ensures |Final(e, Same(p, n)).table| == FirstSize(k) + m'
    ensures 1 <= j' <= m' + 1 && Triangle(m') + j' == Triangle(m) + j + n
    decreases n
  {
    hide Pow2, SameTable, Triangle, Same;
    m', j' := m, j;
    SameSize(k, p, m);
    if n == 0 {
      NoPixels(p);
    } else {
      SameKnown(k, p, m, j);
      SameRest(p, n);
      if j <= m {
        m', j' := SamePixels(e.(s := e.s + [p]), k, p, m, j + 1, n - 1);
      } else {
        SameNext(k, p, m);
        TriangleNext(m);
        m', j' := SamePixels(Miss(e, p), k, p, m + 1, 1, n - 1);
      }
    }
  }

  lemma NoPixels(p: nat)
    ensures Same(p, 0) == []
  {
  }

  lemma SameRest(p: nat, n: nat)
    requires n > 0
    ensures |Same(p, n)| == n && Same(p, n)[0] == p && Same(p, n)[1..] == Same(p, n - 1)
  {
  }

  lemma TriangleNext(n: nat)
    ensures Triangle(n + 1) == Triangle(n) + n + 1
  {
  }

  lemma SameSize(k: nat, p: nat, m: nat)
    ensures |SameTable(k, p, m)| == FirstSize(k) + m
  {
  }

  lemma SameNext(k: nat, p: nat, m: nat)
    ensures SameTable(k, p, m + 1) == SameTable(k, p, m) + [Same(p, m + 2)] && [p] == Same(p, 1)
  {
  }
}
