/** What the error correction is good for in a whole symbol: a damaged grid in which no block has lost
    more than half as many words as it has parity words, and the format word no more than three
    modules, comes from one text only. */
module Correction {
  import opened Bytes
  import opened Outcomes
  import opened ReedSolomon
  import opened CodeDistance
  import opened RsBlocks
  import opened Interleave
  import opened FinalMessage
  import opened Segments
  import opened DataStream
  import opened QrBitBuffer
  import opened Zigzag
  import opened FunctionPatterns
  import opened QrSymbol
  import opened QrCode
  import opened Capacity
  import opened PathOrder
  import opened MaskTiles
  import BchDistance

  // --- The blocks of a message ---

  function ParitySizes(blocks: seq<RsBlock>): (s: seq<nat>)
    ensures |s| == |blocks|
    ensures forall r :: 0 <= r < |s| && 0 <= EcCount(blocks[r]) ==> s[r] == EcCount(blocks[r])
  {
    seq(|blocks|, r requires 0 <= r < |blocks| => if 0 <= EcCount(blocks[r]) then EcCount(blocks[r]) else 0)
  }

  /** Each block with its parity behind it. */
  function Joined(a: Rows<Byte>, b: Rows<Byte>): (s: Rows<Byte>)
    ensures |s| == Min(|a|, |b|) && forall r :: 0 <= r < |s| ==> s[r] == a[r] + b[r]
  {
    seq(Min(|a|, |b|), r requires 0 <= r < Min(|a|, |b|) => a[r] + b[r])
  }

  /** The words dealt out to the blocks, first the data and then the parity. */
  function Received(words: seq<Byte>, blocks: seq<RsBlock>): Outcome<Rows<Byte>> {
    match Deinterleave(words, DataSizes(blocks))
    case Throws => Throws
    case Ok(d) =>
      match Deinterleave(d.rest, ParitySizes(blocks))
      case Throws => Throws
      case Ok(e) => Ok(Joined(d.blocks, e.blocks))
  }

  lemma ReceivedMessage(dc: Rows<Byte>, ec: Rows<Byte>, blocks: seq<RsBlock>)
    requires Encodable(blocks) && |dc| == |ec| == |blocks|
    requires forall r :: 0 <= r < |blocks| ==> |dc[r]| == blocks[r].dataCount && |ec[r]| == EcCount(blocks[r])
    ensures Received(Interleaved(dc) + Interleaved(ec), blocks) == Ok(Joined(dc, ec))
  {
    hide Deinterleave, Interleaved;
    DeinterleaveInterleaved(dc, Interleaved(ec));
    DeinterleaveInterleaved(ec, []);
    assert Interleaved(ec) + [] == Interleaved(ec);
    assert Sizes(dc) == DataSizes(blocks) && Sizes(ec) == ParitySizes(blocks);
  }

  // --- Words of the right number can always be dealt out ---

  lemma {:induction false} SameColumn(a: seq<Byte>, b: seq<Byte>, sizes: seq<nat>, i: nat, r: nat, p: Rows<Byte>,
                                      q: Rows<Byte>)
    requires |a| == |b| && |p| == |q| == |sizes| && r <= |sizes|
    requires DealColumn(b, sizes, i, r, q).Ok?
    requires forall k :: 0 <= k < |p| ==> |p[k]| == |q[k]|
    ensures var x, y := DealColumn(a, sizes, i, r, p), DealColumn(b, sizes, i, r, q);
            && x.Ok? && |x.value.rest| == |y.value.rest|
            && forall k :: 0 <= k < |sizes| ==> |x.value.blocks[k]| == |y.value.blocks[k]|
    decreases |sizes| - r
  {
    if r == |sizes| {
    } else if i >= sizes[r] {
      SameColumn(a, b, sizes, i, r + 1, p, q);
    } else {
      SameColumn(a[1..], b[1..], sizes, i, r + 1, p[r := p[r] + [a[0]]], q[r := q[r] + [b[0]]]);
    }
  }

  lemma {:induction false} SameDeal(a: seq<Byte>, b: seq<Byte>, sizes: seq<nat>, i: nat, max: nat, p: Rows<Byte>,
                                    q: Rows<Byte>)
    requires |a| == |b| && |p| == |q| == |sizes| && i <= max && Deal(b, sizes, i, max, q).Ok?
    requires forall k :: 0 <= k < |p| ==> |p[k]| == |q[k]|
    ensures var x, y := Deal(a, sizes, i, max, p), Deal(b, sizes, i, max, q);
            && x.Ok? && |x.value.rest| == |y.value.rest| && |x.value.blocks| == |y.value.blocks| == |sizes|
            && forall k :: 0 <= k < |sizes| ==> |x.value.blocks[k]| == |y.value.blocks[k]|
    decreases max - i
  {
    hide DealColumn;
    if i == max {
    } else {
      SameColumn(a, b, sizes, i, 0, p, q);
      var x, y := DealColumn(a, sizes, i, 0, p).value, DealColumn(b, sizes, i, 0, q).value;
      SameDeal(x.rest, y.rest, sizes, i + 1, max, x.blocks, y.blocks);
    }
  }

  /** Whatever happened to the words, they are received as blocks of the same sizes. */
  lemma AlwaysReceived(a: seq<Byte>, b: seq<Byte>, blocks: seq<RsBlock>)
    requires |a| == |b| && Received(b, blocks).Ok?
    ensures var x, y := Received(a, blocks), Received(b, blocks);
            && x.Ok? && |x.value| == |y.value| == |blocks|
            && forall k :: 0 <= k < |blocks| ==> |x.value[k]| == |y.value[k]|
  {
    hide Deal;
    var none := Empties<Byte>(|blocks|);
    SameDeal(a, b, DataSizes(blocks), 0, Longest(DataSizes(blocks)), none, none);
    var x, y := Deinterleave(a, DataSizes(blocks)).value, Deinterleave(b, DataSizes(blocks)).value;
    SameDeal(x.rest, y.rest, ParitySizes(blocks), 0, Longest(ParitySizes(blocks)), none, none);
  }

  // --- One message ---

  /** No block has lost more than half as many words as it has parity words. */
  ghost predicate Correctable(received: Rows<Byte>, sent: Rows<Byte>, blocks: seq<RsBlock>) {
    && |received| == |sent| == |blocks|
    && forall r :: 0 <= r < |blocks| ==>
         |received[r]| == |sent[r]| && 2 * Distance(received[r], sent[r]) <= EcCount(blocks[r])
  }

  /** The message a was sent in blocks that the received ones come near to. */
  ghost predicate ComesNear(received: Rows<Byte>, words: seq<Byte>, blocks: seq<RsBlock>) {
    var sent := Received(words, blocks);
    sent.Ok? && Correctable(received, sent.value, blocks)
  }

  lemma OneBuffer(received: Rows<Byte>, a: seq<Byte>, x: seq<Byte>, b: seq<Byte>, y: seq<Byte>, blocks: seq<RsBlock>)
    requires Encodable(blocks) && forall r :: 0 <= r < |blocks| ==> blocks[r].totalCount <= 255
    requires |x| == |y| == DataCount(blocks) && IsMessage(a, x, blocks) && IsMessage(b, y, blocks)
    requires ComesNear(received, a, blocks) && ComesNear(received, b, blocks)
    ensures x == y
  {
    hide Interleaved, IsCodeword, Slices, DataCount, Flat, Received, Distance;
    var dx, dy := Slices(x, blocks), Slices(y, blocks);
    var ex: Rows<Byte> :| IsParity(ex, dx, blocks) && a == Interleaved(dx) + Interleaved(ex);
    var ey: Rows<Byte> :| IsParity(ey, dy, blocks) && b == Interleaved(dy) + Interleaved(ey);
    ReceivedMessage(dx, ex, blocks);
    ReceivedMessage(dy, ey, blocks);
    forall r | 0 <= r < |blocks| ensures dx[r] == dy[r] {
      UniqueCorrection(received[r], dx[r] + ex[r], dy[r] + ey[r], EcCount(blocks[r]));
      assert dx[r] == (dx[r] + ex[r])[..|dx[r]|] && dy[r] == (dy[r] + ey[r])[..|dy[r]|];
    }
    assert dx == dy;
  }

  /** So the segments are those of one message only. */
  lemma OneText(received: Rows<Byte>, a: seq<Byte>, s: seq<Segment>, b: seq<Byte>, t: seq<Segment>, version: nat,
                level: Level)
    requires 1 <= version <= 40 && AllLegal(s) && AllLegal(t)
    requires |StreamBits(s, version)| <= 8 * DataCount(Blocks(version, level))
    requires |StreamBits(t, version)| <= 8 * DataCount(Blocks(version, level))
    requires IsSymbolData(a, s, version, level) && IsSymbolData(b, t, version, level)
    requires ComesNear(received, a, Blocks(version, level)) && ComesNear(received, b, Blocks(version, level))
    ensures s == t
  {
    hide StreamBits, DataCount, Blocks, Padded, AllBits, ComesNear, IsMessage, ParseStream, CountsFit, MostData,
         AllLegal, Legal;
    var blocks := Blocks(version, level);
    BlocksFit(version, level);
    LegalAll(s);
    LegalAll(t);
    var x :| |x| == DataCount(blocks) && AllBits(x) == Padded(StreamBits(s, version), DataCount(blocks))
             && IsMessage(a, x, blocks);
    var y :| |y| == DataCount(blocks) && AllBits(y) == Padded(StreamBits(t, version), DataCount(blocks))
             && IsMessage(b, y, blocks);
    OneBuffer(received, a, x, b, y, blocks);
    AllCountsFit(s, version);
    AllCountsFit(t, version);
    ParsePadded(s, version, DataCount(blocks));
    ParsePadded(t, version, DataCount(blocks));
  }

  // --- One symbol ---

  /** Read with that level and mask, the words of the damaged grid come near to those of the symbol. */
  ghost predicate Near(damaged: Grid, g: Grid, version: nat, level: Level, maskPattern: nat)
    requires 1 <= version <= 40 && Square(damaged, Size(version)) && Square(g, Size(version))
  {
    var p, q := PathWords(damaged, version, level, maskPattern), PathWords(g, version, level, maskPattern);
    && p.Ok? && q.Ok?
    && var received := Received(p.value, Blocks(version, level));
       received.Ok? && ComesNear(received.value, q.value, Blocks(version, level))
  }

  /** The format word beside the left finders has three wrong modules at most. */
  predicate FormatNear(damaged: Grid, g: Grid, n: nat)
    requires n >= 21 && Square(damaged, n) && Square(g, n)
  {
    BchDistance.Distance(ReadFormat(damaged, n), ReadFormat(g, n)) <= 3
  }

  /** The damaged grid is that of the symbol but for what can be corrected. */
  ghost predicate Resembles(damaged: Grid, g: Grid, version: nat, level: Level, maskPattern: nat) {
    && 1 <= version <= 40 && Size(version) >= 21 && Square(damaged, Size(version)) && Square(g, Size(version))
    && FormatNear(damaged, g, Size(version)) && Near(damaged, g, version, level, maskPattern)
  }

  /** Two drawn symbols that a damaged grid resembles have the same level, mask and segments. */
  lemma DamagedSymbol(damaged: Grid, version: nat, g: Grid, s: seq<Segment>, level: Level, mask: nat,
                      h: Grid, t: seq<Segment>, level': Level, mask': nat)
    requires IsDrawing(g, s, version, level, mask) && IsDrawing(h, t, version, level', mask')
    requires Resembles(damaged, g, version, level, mask) && Resembles(damaged, h, version, level', mask')
    ensures level == level' && mask == mask' && s == t
  {
    hide IsDrawing, Blocks, Size, ReadFormat, PathWords, Received, ComesNear, AllLegal, StreamBits, DataCount,
         IsFormatWord, IsSymbolData, BchDistance.Distance;
    var bits, a := DrawnShows(g, s, version, level, mask);
    var bits', b := DrawnShows(h, t, version, level', mask');
    BchDistance.FormatIsRead(ReadFormat(damaged, Size(version)), bits, level, mask, bits', level', mask');
    var words := PathWords(damaged, version, level, mask).value;
    OneText(Received(words, Blocks(version, level)).value, a, s, b, t, version, level);
  }

  // --- Reading a damaged grid ---

  lemma {:induction false} ReadLength(g: Grid, n: nat, ps: seq<Position>, reserved: Reservation, mask: MaskFunction)
    requires Square(g, n) && forall i :: 0 <= i < |ps| ==> Within(ps[i], n)
    ensures |Read(g, n, ps, reserved, mask)| == CountFree(ps, reserved)
    decreases |ps|
  {
    if |ps| == 0 {
    } else {
      ReadLength(g, n, ps[1..], reserved, mask);
    }
  }

  lemma {:induction false} BytesOfLength(bits: seq<bool>, n: nat)
    requires |bits| == 8 * n
    ensures |BytesOf(bits)| == n
  {
    if n == 0 {
    } else {
      BytesOfLength(bits[..|bits| - 8], n - 1);
    }
  }

  /** There are always words enough along the path. */
  lemma PathWordsOf(g: Grid, version: nat, level: Level, maskPattern: nat)
    requires 1 <= version <= 40 && Square(g, Size(version))
    ensures var words := PathWords(g, version, level, maskPattern);
            words.Ok? && |words.value| == TotalCount(Blocks(version, level))
  {
    hide Reserved, WholePath, Strips, Read, RawModules, CountFree, TileMask, BytesOf, Blocks, TotalCount, MostData,
         DataCount;
    var n, total := Size(version), TotalCount(Blocks(version, level));
    var reserved := (p: Position) => Reserved(version, p);
    PathIs(n);
    ReadLength(g, n, Strips(n, 0), reserved, TileMask(maskPattern));
    ExactRoom(version);
    BlocksFit(version, level);
    BytesOfLength(Read(g, n, Strips(n, 0), reserved, TileMask(maskPattern))[..8 * total], total);
  }

  /** However a symbol was damaged, its blocks are received in their sizes: what counts is only how many
      of their words are wrong. */
  lemma DamagedIsReceived(damaged: Grid, g: Grid, s: seq<Segment>, version: nat, level: Level, mask: nat)
    requires IsDrawing(g, s, version, level, mask)
    requires 1 <= version <= 40 && Square(damaged, Size(version)) && Square(g, Size(version))
    ensures var p, q := PathWords(damaged, version, level, mask), PathWords(g, version, level, mask);
            && p.Ok? && q.Ok?
            && var x, y := Received(p.value, Blocks(version, level)), Received(q.value, Blocks(version, level));
               && x.Ok? && y.Ok? && |x.value| == |y.value| == |Blocks(version, level)|
               && forall r :: 0 <= r < |x.value| ==>
                    |x.value[r]| == |y.value[r]| == Blocks(version, level)[r].totalCount
  {
    hide IsDrawing, Blocks, Size, ReadFormat, PathWords, Received, AllLegal, StreamBits, DataCount, IsFormatWord,
         IsSymbolData;
    var bits, words := DrawnShows(g, s, version, level, mask);
    PathWordsOf(damaged, version, level, mask);
    PathWordsOf(g, version, level, mask);
    SentBlocks(words, s, version, level);
    AlwaysReceived(PathWords(damaged, version, level, mask).value, words, Blocks(version, level));
  }

  lemma SentBlocks(words: seq<Byte>, s: seq<Segment>, version: nat, level: Level)
    requires 1 <= version <= 40 && AllLegal(s)
    requires |StreamBits(s, version)| <= 8 * DataCount(Blocks(version, level))
    requires IsSymbolData(words, s, version, level)
    ensures var y := Received(words, Blocks(version, level));
            && y.Ok? && |y.value| == |Blocks(version, level)|
            && forall r :: 0 <= r < |y.value| ==> |y.value[r]| == Blocks(version, level)[r].totalCount
  {
    hide StreamBits, DataCount, Blocks, Padded, AllBits, AllLegal, Legal, Received, IsMessage, MostData, RawModules;
    LegalAll(s);
    BlocksFit(version, level);
    var blocks := Blocks(version, level);
    var x :| |x| == DataCount(blocks) && AllBits(x) == Padded(StreamBits(s, version), DataCount(blocks))
             && IsMessage(words, x, blocks);
    SentRows(words, x, blocks);
  }

  lemma SentRows(words: seq<Byte>, x: seq<Byte>, blocks: seq<RsBlock>)
    requires Encodable(blocks) && |x| == DataCount(blocks) && IsMessage(words, x, blocks)
    ensures var y := Received(words, blocks);
            y.Ok? && |y.value| == |blocks| && forall r :: 0 <= r < |y.value| ==> |y.value[r]| == blocks[r].totalCount
  {
    hide DataCount, Received, IsCodeword, Interleaved, Flat;
    var dc := Slices(x, blocks);
    var ec: Rows<Byte> :| IsParity(ec, dc, blocks) && words == Interleaved(dc) + Interleaved(ec);
    ReceivedMessage(dc, ec, blocks);
  }
}
