/** `createBytes`: the data words are cut into blocks, each block gets its error-correction
    words, and both are interleaved into the message that is drawn. */
module FinalMessage {
  import opened Bytes
  import opened Outcomes
  import opened Interleave
  import opened RsBlocks
  import opened Polynomials
  import opened QrMath
  import opened ReedSolomon
  import opened CodeDistance

  /** The data words of each block. */
  function Slices(buffer: seq<Byte>, blocks: seq<RsBlock>): (s: Rows<Byte>)
    requires |buffer| == DataCount(blocks)
    ensures |s| == |blocks|
    ensures forall r :: 0 <= r < |s| ==> |s[r]| == blocks[r].dataCount
    ensures Flat(s) == buffer
    decreases |blocks|
  {
    if |blocks| == 0 then []
    else
      var front := blocks[..|blocks| - 1];
      Slices(buffer[..DataCount(front)], front) + [buffer[DataCount(front)..]]
  }

  function EcCount(b: RsBlock): int {
    b.totalCount - b.dataCount
  }

  /** The words of a message: interleaved data, then interleaved parity, every block a code word. */
  ghost predicate IsMessage(words: seq<Byte>, buffer: seq<Byte>, blocks: seq<RsBlock>)
    requires |buffer| == DataCount(blocks)
  {
    exists ec: Rows<Byte> :: IsParity(ec, Slices(buffer, blocks), blocks) &&
                             words == Interleaved(Slices(buffer, blocks)) + Interleaved(ec)
  }

  ghost predicate IsParity(ec: Rows<Byte>, dc: Rows<Byte>, blocks: seq<RsBlock>) {
    && |ec| == |dc| == |blocks|
    && forall r :: 0 <= r < |blocks| ==> |ec[r]| == EcCount(blocks[r]) && IsCodeword(dc[r] + ec[r], |ec[r]|)
  }

  /** There is only one message for given data, as long as no block has more than 255 words. */
  lemma MessageIsUnique(a: seq<Byte>, b: seq<Byte>, buffer: seq<Byte>, blocks: seq<RsBlock>)
    requires |buffer| == DataCount(blocks)
    requires forall r :: 0 <= r < |blocks| ==> blocks[r].totalCount <= 255
    requires IsMessage(a, buffer, blocks) && IsMessage(b, buffer, blocks)
    ensures a == b
  {
    hide Interleaved, IsCodeword;
    var dc := Slices(buffer, blocks);
    var e: Rows<Byte> :| IsParity(e, dc, blocks) && a == Interleaved(dc) + Interleaved(e);
    var f: Rows<Byte> :| IsParity(f, dc, blocks) && b == Interleaved(dc) + Interleaved(f);
    forall r | 0 <= r < |blocks| ensures e[r] == f[r] {
      ParityIsUnique(dc[r], e[r], f[r], |e[r]|);
    }
    assert e == f;
  }

  method CopySlice(buffer: seq<Byte>, offset: nat, count: nat) returns (s: seq<Byte>)
    requires offset + count <= |buffer|
    ensures s == buffer[offset..offset + count]
  {
    var out := new Byte[count](_ => ZERO);
    for i := 0 to count
      invariant out[..i] == buffer[offset..offset + i]
    {
      out[i] := buffer[i + offset];
    }
    s := out[..];
  }

  /** Writes the columns of the blocks into data from index on. */
  method WriteColumns(data: array<Byte>, start: nat, blocks: Rows<Byte>, max: nat) returns (index: nat)
    requires start + |Columns(blocks, 0, max)| <= data.Length
    modifies data
    ensures index == start + |Columns(blocks, 0, max)|
    ensures data[..index] == old(data[..start]) + Columns(blocks, 0, max)
  {
    hide Column, Columns;
    index := start;
    ghost var all := data[..start] + Columns(blocks, 0, max);
    for i := 0 to max
      invariant index <= data.Length && data[..index] + Columns(blocks, i, max) == all
    {
      ColumnsNext(blocks, i, max);
      ghost var tail := Columns(blocks, i + 1, max);
      assert data[..index] + Column(blocks, i, 0) + tail == data[..index] + (Column(blocks, i, 0) + tail);
      for r := 0 to |blocks|
        invariant index <= data.Length && data[..index] + Column(blocks, i, r) + tail == all
      {
        ColumnNext(blocks, i, r);
        if i < |blocks[r]| {
          ghost var before := data[..index];
          assert |before + Column(blocks, i, r) + tail| == |all| <= data.Length;
          data[index] := blocks[r][i];
          index := index + 1;
          assert data[..index] == before + [blocks[r][i]];
          assert data[..index] + Column(blocks, i, r + 1) == before + Column(blocks, i, r);
        }
      }
      ColumnNone(blocks, i);
      assert data[..index] + [] + tail == data[..index] + tail;
    }
    ColumnsNone(blocks, max);
    assert data[..index] + [] == data[..index];
  }

  lemma ColumnsNext(blocks: Rows<Byte>, i: nat, max: nat)
    requires i < max
    ensures Columns(blocks, i, max) == Column(blocks, i, 0) + Columns(blocks, i + 1, max)
  {
  }

  lemma ColumnsNone(blocks: Rows<Byte>, max: nat)
    ensures Columns(blocks, max, max) == []
  {
  }

  lemma ColumnNext(blocks: Rows<Byte>, i: nat, r: nat)
    requires r < |blocks|
    ensures Column(blocks, i, r) == (if i < |blocks[r]| then [blocks[r][i]] else []) + Column(blocks, i, r + 1)
    ensures i >= |blocks[r]| ==> Column(blocks, i, r) == Column(blocks, i, r + 1)
  {
  }

  lemma ColumnNone(blocks: Rows<Byte>, i: nat)
    ensures Column(blocks, i, |blocks|) == []
  {
  }

  lemma {:induction false} DataCountPrefix(blocks: seq<RsBlock>, r: nat)
    requires r < |blocks|
    ensures DataCount(blocks[..r + 1]) == DataCount(blocks[..r]) + blocks[r].dataCount <= DataCount(blocks)
    decreases |blocks|
  {
    assert blocks[..r + 1][..r] == blocks[..r];
    if r + 1 < |blocks| {
      DataCountPrefix(blocks[..|blocks| - 1], r);
      assert blocks[..|blocks| - 1][..r + 1] == blocks[..r + 1] && blocks[..|blocks| - 1][..r] == blocks[..r];
    } else {
      assert blocks[..r + 1] == blocks;
    }
  }

  lemma SlicesPrefix(buffer: seq<Byte>, blocks: seq<RsBlock>, r: nat)
    requires |buffer| == DataCount(blocks) && r < |blocks|
    requires DataCount(blocks[..r]) <= DataCount(blocks[..r + 1]) <= |buffer|
    ensures Slices(buffer[..DataCount(blocks[..r + 1])], blocks[..r + 1]) ==
            Slices(buffer[..DataCount(blocks[..r])], blocks[..r]) +
            [buffer[DataCount(blocks[..r])..DataCount(blocks[..r + 1])]]
  {
    hide DataCount;
    var n, m := DataCount(blocks[..r]), DataCount(blocks[..r + 1]);
    assert blocks[..r + 1][..r] == blocks[..r];
    assert buffer[..m][..n] == buffer[..n] && buffer[..m][n..] == buffer[n..m];
  }

  /** The slices of the first blocks are those of the whole. */
  lemma {:induction false} SlicesFront(buffer: seq<Byte>, blocks: seq<RsBlock>, m: nat)
    requires |buffer| == DataCount(blocks) && m <= |blocks|
    ensures DataCount(blocks[..m]) <= |buffer|
    ensures Slices(buffer[..DataCount(blocks[..m])], blocks[..m]) == Slices(buffer, blocks)[..m]
    decreases |blocks| - m
  {
    hide Slices, DataCount;
    if m == |blocks| {
      assert blocks[..m] == blocks && buffer[..|buffer|] == buffer;
      SlicesCount(buffer, blocks);
    } else {
      SlicesFront(buffer, blocks, m + 1);
      DataCountPrefix(blocks, m);
      SlicesPrefix(buffer, blocks, m);
      SlicesCount(buffer, blocks);
      SlicesCount(buffer[..DataCount(blocks[..m])], blocks[..m]);
    }
  }

  lemma SlicesCount(buffer: seq<Byte>, blocks: seq<RsBlock>)
    requires |buffer| == DataCount(blocks)
    ensures |Slices(buffer, blocks)| == |blocks|
  {
  }

  /** No block stops the encoder. */
  ghost predicate NoneStuck(dc: Rows<Byte>, blocks: seq<RsBlock>) {
    |dc| == |blocks| && forall r :: 0 <= r < |blocks| ==> !Unencodable(dc[r], EcCount(blocks[r]))
  }

  lemma NoneStuckAppend(dc: Rows<Byte>, blocks: seq<RsBlock>, d: seq<Byte>, b: RsBlock)
    requires NoneStuck(dc, blocks) && !Unencodable(d, EcCount(b))
    ensures NoneStuck(dc + [d], blocks + [b])
  {
    hide Unencodable;
  }

  lemma StuckAt(dc: Rows<Byte>, blocks: seq<RsBlock>, r: nat)
    requires r < |blocks| == |dc| && Unencodable(dc[r], EcCount(blocks[r]))
    ensures !NoneStuck(dc, blocks)
  {
  }

  ghost predicate Encodable(blocks: seq<RsBlock>) {
    forall r :: 0 <= r < |blocks| ==> 0 <= EcCount(blocks[r])
  }

  /** The first loop: data and parity of every block, and the longest of each. */
  method EncodeBlocks(math: QrMath, buffer: seq<Byte>, blocks: seq<RsBlock>)
      returns (ok: bool, dcdata: Rows<Byte>, ecdata: Rows<Byte>, maxDcCount: nat, maxEcCount: nat)
    requires math.Valid() && |buffer| == DataCount(blocks) && Encodable(blocks)
    ensures ok <==> NoneStuck(Slices(buffer, blocks), blocks)
    ensures ok ==> dcdata == Slices(buffer, blocks) && IsParity(ecdata, dcdata, blocks)
    ensures ok ==> maxDcCount == Longest(Sizes(dcdata)) && maxEcCount == Longest(Sizes(ecdata))
  {
    hide IsCodeword, Slices, DataCount, Product, Longest, Flat, Generator, Sizes, IsParity, NoneStuck, Unencodable;
    var offset := 0;
    maxDcCount, maxEcCount := 0, 0;
    dcdata, ecdata := [], [];
    SlicesNone(buffer, blocks);
    assert IsParity([], [], blocks[..0]) && NoneStuck([], blocks[..0]) by { ParityNone(blocks[..0]); }
    NothingLongest();
    for r := 0 to |blocks|
      invariant offset == DataCount(blocks[..r]) <= |buffer|
      invariant dcdata == Slices(buffer[..offset], blocks[..r])
      invariant IsParity(ecdata, dcdata, blocks[..r]) && NoneStuck(dcdata, blocks[..r])
      invariant maxDcCount == Longest(Sizes(dcdata)) && maxEcCount == Longest(Sizes(ecdata))
    {
      var dcCount := blocks[r].dataCount;
      var ecCount := blocks[r].totalCount - dcCount;
      DataCountPrefix(blocks, r);
      SlicesPrefix(buffer, blocks, r);
      var dc := CopySlice(buffer, offset, dcCount);
      var ec := EncodeBlock(math, dc, ecCount);
      if ec.Throws? {
        SlicesFront(buffer, blocks, r + 1);
        SlicesCount(buffer, blocks);
        SlicesCount(buffer[..offset], blocks[..r]);
        assert Slices(buffer, blocks)[..r + 1][r] == dc;
        StuckAt(Slices(buffer, blocks), blocks, r);
        ok := false;
        return;
      }
      NoneStuckAppend(dcdata, blocks[..r], dc, blocks[r]);
      ParityAppend(ecdata, dcdata, blocks[..r], ec.value, dc, blocks[r]);
      assert blocks[..r + 1] == blocks[..r] + [blocks[r]];
      LongestAppend(dcdata, dc);
      LongestAppend(ecdata, ec.value);
      maxDcCount := Max(maxDcCount, dcCount);
      maxEcCount := Max(maxEcCount, ecCount);
      dcdata := dcdata + [dc];
      ecdata := ecdata + [ec.value];
      offset := offset + dcCount;
    }
    assert blocks[..|blocks|] == blocks && buffer[..|buffer|] == buffer;
    ok := true;
  }

  lemma SlicesNone(buffer: seq<Byte>, blocks: seq<RsBlock>)
    ensures DataCount(blocks[..0]) == 0 && Slices(buffer[..0], blocks[..0]) == []
  {
  }

  lemma ParityNone(blocks: seq<RsBlock>)
    requires |blocks| == 0
    ensures IsParity([], [], blocks) && NoneStuck([], blocks)
  {
  }

  lemma ParityAppend(ec: Rows<Byte>, dc: Rows<Byte>, blocks: seq<RsBlock>, e: seq<Byte>, d: seq<Byte>, b: RsBlock)
    requires IsParity(ec, dc, blocks) && |e| == EcCount(b) && IsCodeword(d + e, |e|)
    ensures IsParity(ec + [e], dc + [d], blocks + [b])
  {
    hide IsCodeword;
  }

  lemma NothingLongest()
    ensures Longest(Sizes<Byte>([])) == 0
  {
  }

  lemma LongestAppend(rows: Rows<Byte>, row: seq<Byte>)
    ensures Longest(Sizes(rows + [row])) == Max(Longest(Sizes(rows)), |row|)
  {
    assert Sizes(rows + [row])[..|rows|] == Sizes(rows);
  }

  /** `createBytes`: it throws exactly when a block stops the encoder, and its result is the message
      of the data. */
  method CreateBytes(math: QrMath, buffer: seq<Byte>, blocks: seq<RsBlock>) returns (r: Outcome<seq<Byte>>)
    requires math.Valid() && |buffer| == DataCount(blocks) && Encodable(blocks)
    ensures r.Ok? <==> NoneStuck(Slices(buffer, blocks), blocks)
    ensures r.Ok? ==> IsMessage(r.value, buffer, blocks)
    ensures r.Ok? ==> |r.value| == TotalCount(blocks)
  {
    hide IsCodeword, Slices, DataCount, TotalCount, Columns, Longest, Sizes, IsParity, NoneStuck;
    var ok, dcdata, ecdata, maxDcCount, maxEcCount := EncodeBlocks(math, buffer, blocks);
    if !ok { return Throws; }
    var totalCodeCount := SumTotals(blocks);
    MessageLength(buffer, blocks, dcdata, ecdata);
    var data := new Byte[totalCodeCount](_ => ZERO);
    var index := WriteColumns(data, 0, dcdata, maxDcCount);
    ghost var first := data[..index];
    index := WriteColumns(data, index, ecdata, maxEcCount);
    assert data[..index] == first + Interleaved(ecdata);
    assert first == Interleaved(dcdata) by { assert data[..0] == []; }
    r := Ok(data[..]);
    assert data[..] == data[..index];
  }

  /** No block with 254 parity words or fewer does. */
  lemma NeverStuck(buffer: seq<Byte>, blocks: seq<RsBlock>)
    requires |buffer| == DataCount(blocks) && forall i :: 0 <= i < |blocks| ==> EcCount(blocks[i]) <= 254
    ensures NoneStuck(Slices(buffer, blocks), blocks)
  {
    hide Slices;
    SlicesCount(buffer, blocks);
  }

  method SumTotals(blocks: seq<RsBlock>) returns (total: nat)
    ensures total == TotalCount(blocks)
  {
    total := 0;
    for i := 0 to |blocks|
      invariant total == TotalCount(blocks[..i])
    {
      assert blocks[..i + 1][..i] == blocks[..i];
      total := total + blocks[i].totalCount;
    }
    assert blocks[..|blocks|] == blocks;
  }

  lemma {:induction false} FlatLength(rows: Rows<Byte>, dc: Rows<Byte>, blocks: seq<RsBlock>)
    requires |rows| == |dc| == |blocks|
    requires forall r :: 0 <= r < |blocks| ==> |rows[r]| + |dc[r]| == blocks[r].totalCount
    ensures |Flat(rows)| + |Flat(dc)| == TotalCount(blocks)
  {
    if |blocks| == 0 {
    } else {
      var n := |blocks| - 1;
      FlatLength(rows[..n], dc[..n], blocks[..n]);
    }
  }

  lemma MessageLength(buffer: seq<Byte>, blocks: seq<RsBlock>, dc: Rows<Byte>, ec: Rows<Byte>)
    requires |buffer| == DataCount(blocks) && dc == Slices(buffer, blocks) && IsParity(ec, dc, blocks)
    ensures |Interleaved(dc)| + |Interleaved(ec)| == TotalCount(blocks)
  {
    hide Interleaved, Flat, IsCodeword;
    InterleavedIsPermutation(dc);
    InterleavedIsPermutation(ec);
    FlatLength(ec, dc, blocks);
  }
}
