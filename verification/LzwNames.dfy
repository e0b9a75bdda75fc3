/** What the compressor writes when its table, a plain object, has names that were never added to it.
    It is misled exactly when a match and the next pixel spell such a name; the pixels are lost then,
    and only then. */
module LzwNames {
  import opened JsBits
  import opened LsbBits
  import opened PlainObjects
  import opened Lzw
  import opened GifEndCode

  /** The code units of a string. */
  function Units(name: string): (t: Text)
    ensures |t| == |name| && forall i :: 0 <= i < |t| ==> t[i] == name[i] as nat
  {
    seq(|name|, i requires 0 <= i < |name| => name[i] as nat)
  }

  predicate IsName(t: Text) {
    exists name :: name in INHERITED && t == Units(name)
  }

  lemma NameIs(t: Text)
    requires IsName(t)
    ensures 7 <= |t| <= 20 && t[0] >= 95 && forall i :: 0 <= i < |t| ==> 65 <= t[i] < 128
  {
    var name :| name in INHERITED && t == Units(name);
    InheritedSpelling(name);
  }

  // --- The compressor of the source ---

  /** `contains` */
  predicate Has(table: Dictionary, s: Text) {
    s in table || IsName(s)
  }

  /** `indexOf`, as the bit operators read it: an inherited value, which is no number, is 0 to them. */
  ghost function Index(table: Dictionary, s: Text): nat {
    if s in table then Code(table, s) else 0
  }

  /** All that the loop writes for the pixels still to come. */
  ghost function Emitted(e: Encoder, pixels: seq<nat>): seq<bool>
    decreases |pixels|
  {
    if |pixels| == 0 then Low(Index(e.table, e.s), e.width)
    else
      var c, rest := pixels[0], pixels[1..];
      if Has(e.table, e.s + [c]) then Emitted(e.(s := e.s + [c]), rest)
      else Low(Index(e.table, e.s), e.width) + Emitted(Miss(e, c), rest)
  }

  /** Where the loop ends. */
  ghost function Stopped(e: Encoder, pixels: seq<nat>): Encoder
    decreases |pixels|
  {
    if |pixels| == 0 then e
    else if Has(e.table, e.s + [pixels[0]]) then Stopped(e.(s := e.s + [pixels[0]]), pixels[1..])
    else Stopped(Miss(e, pixels[0]), pixels[1..])
  }

  /** At some point the match and the next pixel spell a name. */
  ghost predicate Misled(e: Encoder, pixels: seq<nat>)
    decreases |pixels|
  {
    && |pixels| > 0
    && (IsName(e.s + [pixels[0]]) || Misled(Matched(e, pixels[0]), pixels[1..]))
  }

  /** The encoder without inherited names after one more pixel. */
  ghost function Matched(e: Encoder, c: nat): Encoder {
    if e.s + [c] in e.table then e.(s := e.s + [c]) else Miss(e, c)
  }

  /** No entry begins with a name. */
  ghost predicate Unnamed(table: Dictionary) {
    forall i, m :: 0 <= i < |table| && 0 <= m <= |table[i]| ==> !IsName(table[i][..m])
  }

  // --- When it is not misled ---

  lemma {:induction false} NotMisled(e: Encoder, pixels: seq<nat>)
    requires e.s in e.table && !Misled(e, pixels)
    requires forall i :: 0 <= i < |pixels| ==> [pixels[i]] in e.table
    ensures Emitted(e, pixels) == Encode(e, pixels) && Stopped(e, pixels) == Final(e, pixels)
    decreases |pixels|
  {
    hide Low, Code, IsName, Miss;
    if |pixels| == 0 {
    } else {
      var c, rest := pixels[0], pixels[1..];
      assert [c] in e.table;
      forall i | 0 <= i < |rest| ensures [rest[i]] in e.table { assert rest[i] == pixels[i + 1]; }
      if e.s + [c] in e.table {
        NotMisled(e.(s := e.s + [c]), rest);
      } else {
        MissKeeps(e, c, rest);
        NotMisled(Miss(e, c), rest);
      }
    }
  }

  // --- When it is misled ---

  lemma EntryUnnamed(table: Dictionary, s: Text)
    requires Unnamed(table) && IsName(s)
    ensures s !in table && forall c :: s + [c] !in table
  {
    forall i | 0 <= i < |table| ensures table[i] != s && forall c :: table[i] != s + [c] {
      if |s| <= |table[i]| { assert !IsName(table[i][..|s|]); }
      forall c ensures table[i] != s + [c] {
        assert (s + [c])[..|s|] == s;
      }
    }
  }

  /** The code 0 is written for a name, or for a longer one. */
  lemma {:induction false} NameSent(e: Encoder, pixels: seq<nat>) returns (more: seq<bool>)
    requires IsName(e.s) && Unnamed(e.table)
    ensures Emitted(e, pixels) == Low(0, e.width) + more
    decreases |pixels|
  {
    hide Low, IsName, Unnamed, Miss;
    EntryUnnamed(e.table, e.s);
    if |pixels| == 0 {
      more := [];
      assert Low(0, e.width) + [] == Low(0, e.width);
    } else if Has(e.table, e.s + [pixels[0]]) {
      more := NameSent(e.(s := e.s + [pixels[0]]), pixels[1..]);
    } else {
      more := Emitted(Miss(e, pixels[0]), pixels[1..]);
    }
  }

  /** The decoder takes it for the pixel 0. */
  lemma ZeroDecoded(e: Encoder, d: Decoder, k: nat, bits: seq<bool>, out: seq<nat>, n: nat)
    requires WellFormed(e, k) && Synchronous(e, d) && |out| < n
    ensures Decode(Low(0, e.width) + bits, k, d, out, n) == Decode(bits, k, Learn(d, [0]), out + [0], n)
  {
    hide Pow2, Low, Learn, Number;
    WidthPositive(e, k);
    NumberOfLow(0, e.width);
    var all := Low(0, e.width) + bits;
    assert all[..d.width] == Low(0, e.width) && all[d.width..] == bits;
    FirstEntry(e, d, k);
  }

  lemma FirstEntry(e: Encoder, d: Decoder, k: nat)
    requires WellFormed(e, k) && Synchronous(e, d)
    ensures |d.table| > 0 && d.table[0] == [0]
  {
    assert e.table[0] == [0];
  }

  /** What has been decoded stays. */
  lemma {:induction false} DecodeExtends(bits: seq<bool>, k: nat, d: Decoder, out: seq<nat>, n: nat)
    ensures var r := Decode(bits, k, d, out, n); r.Ok? ==> out <= r.value.pixels
    decreases |bits|
  {
    hide Pow2, Learn, Number, Entry;
    if |out| >= n || d.width == 0 || |bits| < d.width {
    } else {
      var code, rest := Number(bits[..d.width]), bits[d.width..];
      var entry := Entry(d, code);
      if code == ClearCode(k) {
        DecodeExtends(rest, k, ResetDecoder(k), out, n);
      } else if code != EndCode(k) && entry.Ok? && entry.value != [] {
        DecodeExtends(rest, k, Learn(d, entry.value), out + entry.value, n);
      }
    }
  }

  lemma UnnamedMiss(e: Encoder, c: nat)
    requires Unnamed(e.table) && e.s in e.table && !IsName(e.s + [c])
    ensures Unnamed(Miss(e, c).table)
  {
    hide IsName;
    var i :| 0 <= i < |e.table| && e.table[i] == e.s;
    forall m | 0 <= m <= |e.s| + 1 ensures !IsName((e.s + [c])[..m]) {
      if m <= |e.s| {
        assert (e.s + [c])[..m] == e.table[i][..m];
      } else {
        assert (e.s + [c])[..m] == e.s + [c];
      }
    }
  }

  /** Then the decoder does not get the pixels. */
  lemma {:induction false} MisledDecodes(e: Encoder, d: Decoder, k: nat, pixels: seq<nat>, tail: seq<bool>,
                                         out: seq<nat>, n: nat)
    requires WellFormed(e, k) && Synchronous(e, d) && Pixels(pixels, k) && Unnamed(e.table)
    requires Misled(e, pixels) && n == |out| + |e.s| + |pixels|
    ensures var r := Decode(Emitted(e, pixels) + tail, k, d, out, n);
            r.Ok? ==> r.value.pixels != out + e.s + pixels
    decreases |pixels|
  {
    hide Pow2, Low, Learn, Entry, Number, Miss, WellFormed, Synchronous, Decode, Code, IsName, Unnamed;
    var c, rest := pixels[0], pixels[1..];
    SomePixels(e, k);
    if IsName(e.s + [c]) {
      var more := NameSent(e.(s := e.s + [c]), rest);
      assert Low(0, e.width) + more + tail == Low(0, e.width) + (more + tail);
      ZeroDecoded(e, d, k, more + tail, out, n);
      DecodeExtends(more + tail, k, Learn(d, [0]), out + [0], n);
      NameIs(e.s + [c]);
      assert (out + e.s + pixels)[|out|] == (e.s + [c])[0] != 0 == (out + [0])[|out|];
    } else if e.s + [c] in e.table {
      ExtendMatch(e, d, k, c);
      MisledDecodes(e.(s := e.s + [c]), d, k, rest, tail, out, n);
      assert out + (e.s + [c]) + rest == out + e.s + pixels;
    } else {
      StaySynchronous(e, d, k, c);
      UnnamedMiss(e, c);
      Known(e, k, pixels);
      MissKeeps(e, c, []);
      var bits := Emitted(Miss(e, c), rest);
      assert Low(Code(e.table, e.s), e.width) + bits + tail == Low(Code(e.table, e.s), e.width) + (bits + tail);
      DecodeCode(e, d, k, bits + tail, out, n);
      MisledDecodes(Miss(e, c), Learn(d, e.s), k, rest, tail, out + e.s, n);
      assert out + e.s + [c] + rest == out + e.s + pixels;
    }
  }

  // --- Which images mislead it ---

  /** A name has letters, so an alphabet of 64 pixels or less cannot spell it. */
  lemma {:induction false} SmallAlphabet(e: Encoder, k: nat, pixels: seq<nat>)
    requires k <= 6 && Pixels(pixels, k)
    ensures !Misled(e, pixels)
    decreases |pixels|
  {
    hide IsName, Miss;
    if |pixels| == 0 {
    } else {
      var c := pixels[0];
      assert Pow2(6) == 64;
      Pow2Monotone(k, 6);
      NoSmallName(e.s, c);
      SmallAlphabet(Matched(e, c), k, pixels[1..]);
    }
  }

  lemma NoSmallName(s: Text, c: nat)
    requires c < 64
    ensures !IsName(s + [c])
  {
    hide IsName;
    assert (s + [c])[|s|] == c;
    if IsName(s + [c]) { NameIs(s + [c]); }
  }

  /** No name is misleading that the pixels do not spell somewhere. */
  lemma {:induction false} MisledSpells(e: Encoder, pixels: seq<nat>, before: seq<nat>) returns (i: nat, j: nat)
    requires Misled(e, pixels)
    ensures i <= j <= |before + e.s + pixels| && IsName((before + e.s + pixels)[i..j])
    decreases |pixels|
  {
    hide IsName;
    var c, rest, all := pixels[0], pixels[1..], before + e.s + pixels;
    if IsName(e.s + [c]) {
      i, j := |before|, |before| + |e.s| + 1;
      assert all[i..j] == e.s + [c];
    } else if e.s + [c] in e.table {
      i, j := MisledSpells(Matched(e, c), rest, before);
      assert before + (e.s + [c]) + rest == all;
    } else {
      i, j := MisledSpells(Matched(e, c), rest, before + e.s);
      assert before + e.s + [c] + rest == all;
    }
  }

  // --- An image for every name ---

  /** The table after the blocks 2 to m - 1: for each its prefix of the name, and the two pairs with
      the pixel that closes it. */
  ghost function Learned(k: nat, t: Text, m: nat): Dictionary
    requires 2 <= m <= |t|
    decreases m
  {
    if m == 2 then InitialTable(k) else Learned(k, t, m - 1) + [t[..m - 1], [t[m - 2], m - 1], [m - 1, t[0]]]
  }

  /** The blocks from m on: the prefix of m pixels, the pixel m, and again the first pixel; the last
      one is the name. */
  function Blocks(t: Text, m: nat): seq<nat>
    requires 2 <= m <= |t|
    decreases |t| - m
  {
    if m == |t| then t[1..] else t[1..m] + ([m, t[0]] + Blocks(t, m + 1))
  }

  /** An entry of that table is one pixel, a prefix of the name, or a pair with a small pixel. */
  predicate Expected(s: Text, t: Text, m: nat) {
    |s| <= 1 || (|s| < m && s <= t) || (|s| == 2 && (s[0] < m || s[1] < m))
  }

  lemma {:induction false} LearnedExpected(k: nat, t: Text, m: nat)
    requires 2 <= m <= |t|
    ensures |Learned(k, t, m)| == Pow2(k) + 2 + 3 * (m - 2)
    ensures forall s :: s in Learned(k, t, m) ==> Expected(s, t, m)
    decreases m
  {
    hide Pow2;
    if m == 2 {
    } else {
      LearnedExpected(k, t, m - 1);
      assert t[..m - 1] <= t;
    }
  }

  lemma {:induction false} LearnedPrefix(k: nat, t: Text, m: nat, i: nat)
    requires 2 <= i < m <= |t|
    ensures t[..i] in Learned(k, t, m)
    decreases m
  {
    hide Pow2;
    var last := [t[..m - 1], [t[m - 2], m - 1], [m - 1, t[0]]];
    if i == m - 1 {
      assert last[0] == t[..i];
    } else {
      LearnedPrefix(k, t, m - 1, i);
    }
  }

  /** Pixels that are matched. */
  lemma {:induction false} WalkOn(e: Encoder, k: nat, t: Text, m: nat, j: nat, more: seq<nat>)
    requires 2 <= m <= |t| && IsName(t) && e.table == Learned(k, t, m) && 1 <= j <= m - 1 && e.s == t[..j]
    requires Misled(e.(s := t[..m - 1]), more)
    ensures Misled(e, t[j..m - 1] + more)
    decreases m - j
  {
    hide IsName, Learned, Miss;
    var pixels := t[j..m - 1] + more;
    if j == m - 1 {
      assert pixels == more;
    } else {
      LearnedPrefix(k, t, m, j + 1);
      assert e.s + [t[j]] == t[..j + 1];
      assert pixels[0] == t[j] && pixels[1..] == t[j + 1..m - 1] + more;
      WalkOn(e.(s := t[..j + 1]), k, t, m, j + 1, more);
    }
  }

  ghost predicate AtAnyWidth(table: Dictionary, s: Text, pixels: seq<nat>) {
    forall w :: Misled(Encoder(table, w, s), pixels)
  }

  /** A pixel that is not matched. */
  lemma NextMiss(e: Encoder, c: nat, rest: seq<nat>)
    requires e.s + [c] !in e.table && |e.table| < MAX_SIZE
    requires AtAnyWidth(e.table + [e.s + [c]], [c], rest)
    ensures Misled(e, [c] + rest)
  {
    hide IsName;
    assert ([c] + rest)[0] == c && ([c] + rest)[1..] == rest;
    assert Matched(e, c) == Encoder(e.table + [e.s + [c]], Matched(e, c).width, [c]);
  }

  /** Every name misleads on an image that spells its prefixes first. */
  lemma {:induction false} BlocksMislead(e: Encoder, k: nat, t: Text, m: nat)
    requires 2 <= m <= |t| && IsName(t) && k <= 11
    requires e.table == Learned(k, t, m) && e.s == [t[0]]
    ensures Misled(e, Blocks(t, m))
    decreases |t| - m
  {
    hide IsName, Learned, Misled, Pow2;
    NameIs(t);
    var walked := e.(s := t[..m - 1]);
    assert e.s == t[..1] && walked.s + [t[m - 1]] == t[..m];
    if m == |t| {
      assert t[..m] == t;
      LastPixel(walked, t[m - 1]);
      WalkOn(e, k, t, m, 1, [t[m - 1]]);
      assert Blocks(t, m) == t[1..m - 1] + [t[m - 1]];
    } else {
      var rest := Blocks(t, m + 1);
      var grown := Learned(k, t, m + 1);
      forall w ensures Misled(Encoder(grown, w, [t[0]]), rest) {
        BlocksMislead(Encoder(grown, w, [t[0]]), k, t, m + 1);
      }
      ThreeMisses(walked, k, t, m, rest);
      WalkOn(e, k, t, m, 1, [t[m - 1]] + ([m, t[0]] + rest));
      assert Blocks(t, m) == t[1..m - 1] + ([t[m - 1]] + ([m, t[0]] + rest));
    }
  }

  /** The end of a block. */
  lemma ThreeMisses(e: Encoder, k: nat, t: Text, m: nat, rest: seq<nat>)
    requires 2 <= m < |t| && IsName(t) && k <= 11 && e.table == Learned(k, t, m) && e.s == t[..m - 1]
    requires AtAnyWidth(Learned(k, t, m + 1), [t[0]], rest)
    ensures Misled(e, [t[m - 1]] + ([m, t[0]] + rest))
  {
    hide IsName, Learned, Misled, Pow2;
    NameIs(t);
    LearnedExpected(k, t, m);
    Room(k, m);
    NotLearned(k, t, m);
    LearnedNext(k, t, m);
    assert e.s + [t[m - 1]] == t[..m];
    var table, s, pixels := e.table + [t[..m]], [t[m - 1]], [m, t[0]] + rest;
    forall w ensures Misled(Encoder(table, w, s), pixels) { TwoMisses(e.table, t, m, w, rest); }
    NextMiss(e, t[m - 1], [m, t[0]] + rest);
  }

  lemma LearnedNext(k: nat, t: Text, m: nat)
    requires 2 <= m < |t|
    ensures Learned(k, t, m + 1) == Learned(k, t, m) + [t[..m], [t[m - 1], m], [m, t[0]]]
  {
  }

  lemma LastPixel(e: Encoder, c: nat)
    requires IsName(e.s + [c])
    ensures Misled(e, [c])
  {
  }

  lemma Room(k: nat, m: nat)
    requires k <= 11 && 2 <= m <= 20
    ensures Pow2(k) + 2 + 3 * (m - 2) + 3 < MAX_SIZE
  {
    PowersOfTwo();
    Pow2Monotone(k, 11);
  }

  /** The three entries of block m are new. */
  lemma NotLearned(k: nat, t: Text, m: nat)
    requires 2 <= m < |t| && IsName(t)
    ensures var table := Learned(k, t, m);
            && t[..m] !in table
            && [t[m - 1], m] !in table + [t[..m]]
            && [m, t[0]] !in table + [t[..m], [t[m - 1], m]]
  {
    hide IsName, Learned, Pow2, Expected;
    NameIs(t);
    LearnedExpected(k, t, m);
    NotExpected(t, m);
  }

  lemma NotExpected(t: Text, m: nat)
    requires 2 <= m < |t| <= 20 && forall i :: 0 <= i < |t| ==> 65 <= t[i]
    ensures !Expected(t[..m], t, m) && !Expected([t[m - 1], m], t, m) && !Expected([m, t[0]], t, m)
    ensures [t[m - 1], m] != t[..m] && [m, t[0]] != t[..m] && [m, t[0]] != [t[m - 1], m]
  {
    assert t[..m][0] == t[0] && t[..m][1] == t[1];
    assert [t[m - 1], m][1] == m && [m, t[0]][0] == m;
  }

  /** The pixel that closes a block and the one that begins the next. */
  lemma TwoMisses(table: Dictionary, t: Text, m: nat, w: nat, rest: seq<nat>)
    requires 2 <= m < |t| && |table| + 3 < MAX_SIZE
    requires [t[m - 1], m] !in table + [t[..m]] && [m, t[0]] !in table + [t[..m], [t[m - 1], m]]
    requires AtAnyWidth(table + [t[..m], [t[m - 1], m], [m, t[0]]], [t[0]], rest)
    ensures Misled(Encoder(table + [t[..m]], w, [t[m - 1]]), [m, t[0]] + rest)
  {
    hide Misled;
    var one, two := table + [t[..m]], table + [t[..m], [t[m - 1], m]];
    assert one + [[t[m - 1], m]] == two && two + [[m, t[0]]] == table + [t[..m], [t[m - 1], m], [m, t[0]]];
    assert [t[m - 1]] + [m] == [t[m - 1], m] && [m] + [t[0]] == [m, t[0]];
    var s, pixels := [m], [t[0]] + rest;
    forall v ensures Misled(Encoder(two, v, s), pixels) { NextMiss(Encoder(two, v, s), t[0], rest); }
    NextMiss(Encoder(one, w, [t[m - 1]]), m, [t[0]] + rest);
    assert [m] + ([t[0]] + rest) == [m, t[0]] + rest;
  }
}
