/** The final message sequence of `createBytes` (section 7.6 of ISO/IEC 18004:2015): blocks are
    read column by column, and a reader that knows the block sizes deals them out again. */
module Interleave {
  import opened Outcomes

  type Rows<T> = seq<seq<T>>

  /** The i-th entries of the blocks from r on that have one. */
  function Column<T>(blocks: Rows<T>, i: nat, r: nat): seq<T>
    requires r <= |blocks|
    decreases |blocks| - r
  {
    if r == |blocks| then []
    else (if i < |blocks[r]| then [blocks[r][i]] else []) + Column(blocks, i, r + 1)
  }

  /** The columns from i on, up to max. */
  function Columns<T>(blocks: Rows<T>, i: nat, max: nat): seq<T>
    requires i <= max
    decreases max - i
  {
    if i == max then [] else Column(blocks, i, 0) + Columns(blocks, i + 1, max)
  }

  function Max(a: nat, b: nat): nat {
    if a < b then b else a
  }

  function Longest(sizes: seq<nat>): (m: nat)
    ensures forall r :: 0 <= r < |sizes| ==> sizes[r] <= m
  {
    if |sizes| == 0 then 0 else Max(Longest(sizes[..|sizes| - 1]), sizes[|sizes| - 1])
  }

  function Sizes<T>(blocks: Rows<T>): (s: seq<nat>)
    ensures |s| == |blocks| && forall r :: 0 <= r < |s| ==> s[r] == |blocks[r]|
  {
    seq(|blocks|, r requires 0 <= r < |blocks| => |blocks[r]|)
  }

  function Interleaved<T>(blocks: Rows<T>): seq<T> {
    Columns(blocks, 0, Longest(Sizes(blocks)))
  }

  // --- Dealing the words out again ---

  datatype Dealt<T> = Dealt(blocks: Rows<T>, rest: seq<T>)

  /** Appends a word to every block from r on that is to have more than i words. */
  function DealColumn<T>(words: seq<T>, sizes: seq<nat>, i: nat, r: nat, blocks: Rows<T>): (d: Outcome<Dealt<T>>)
    requires |blocks| == |sizes| && r <= |sizes|
    ensures d.Ok? ==> |d.value.blocks| == |sizes|
    decreases |sizes| - r
  {
    if r == |sizes| then Ok(Dealt(blocks, words))
    else if i >= sizes[r] then DealColumn(words, sizes, i, r + 1, blocks)
    else if |words| == 0 then Throws
    else DealColumn(words[1..], sizes, i, r + 1, blocks[r := blocks[r] + [words[0]]])
  }

  function Deal<T>(words: seq<T>, sizes: seq<nat>, i: nat, max: nat, blocks: Rows<T>): Outcome<Dealt<T>>
    requires |blocks| == |sizes| && i <= max
    decreases max - i
  {
    if i == max then Ok(Dealt(blocks, words))
    else
      match DealColumn(words, sizes, i, 0, blocks)
      case Throws => Throws
      case Ok(d) => Deal(d.rest, sizes, i + 1, max, d.blocks)
  }

  function Empties<T>(n: nat): Rows<T> {
    seq(n, _ => [])
  }

  /** The blocks of the given sizes, and the words that follow them. */
  function Deinterleave<T>(words: seq<T>, sizes: seq<nat>): Outcome<Dealt<T>> {
    Deal(words, sizes, 0, Longest(sizes), Empties(|sizes|))
  }

  // --- The round trip ---

  function Min(a: nat, b: nat): nat {
    if a < b then a else b
  }

  /** The first i words of every block, and one more of the blocks before r. */
  function Started<T>(blocks: Rows<T>, i: nat, r: nat): (s: Rows<T>)
    ensures |s| == |blocks|
  {
    seq(|blocks|, k requires 0 <= k < |blocks| => blocks[k][..Min(if k < r then i + 1 else i, |blocks[k]|)])
  }

  lemma {:induction false} DealColumnOf<T>(blocks: Rows<T>, i: nat, r: nat, rest: seq<T>)
    requires r <= |blocks|
    ensures DealColumn(Column(blocks, i, r) + rest, Sizes(blocks), i, r, Started(blocks, i, r)) ==
            Ok(Dealt(Started(blocks, i, |blocks|), rest))
    decreases |blocks| - r
  {
    var now, next := Started(blocks, i, r), Started(blocks, i, r + 1);
    if r == |blocks| {
      assert Column(blocks, i, r) + rest == rest;
    } else if i >= |blocks[r]| {
      assert now == next;
      assert Column(blocks, i, r) == Column(blocks, i, r + 1);
      DealColumnOf(blocks, i, r + 1, rest);
    } else {
      var w := blocks[r][i];
      var more := Column(blocks, i, r + 1) + rest;
      assert Column(blocks, i, r) + rest == [w] + more;
      assert now[r] + [w] == next[r];
      assert now[r := now[r] + [w]] == next;
      DealColumnOf(blocks, i, r + 1, rest);
    }
  }

  lemma StartedNext<T>(blocks: Rows<T>, i: nat)
    ensures Started(blocks, i, |blocks|) == Started(blocks, i + 1, 0)
  {
  }

  lemma StartedAll<T>(blocks: Rows<T>, max: nat)
    requires forall r :: 0 <= r < |blocks| ==> |blocks[r]| <= max
    ensures Started(blocks, max, 0) == blocks
    ensures Started(blocks, 0, 0) == Empties(|blocks|)
  {
    forall k | 0 <= k < |blocks| ensures Started(blocks, max, 0)[k] == blocks[k] {
      assert blocks[k][..|blocks[k]|] == blocks[k];
    }
    forall k | 0 <= k < |blocks| ensures Started(blocks, 0, 0)[k] == Empties(|blocks|)[k] {
    }
  }

  lemma {:induction false} DealColumns<T>(blocks: Rows<T>, i: nat, max: nat, rest: seq<T>)
    requires i <= max
    ensures Deal(Columns(blocks, i, max) + rest, Sizes(blocks), i, max, Started(blocks, i, 0)) ==
            Ok(Dealt(Started(blocks, max, 0), rest))
    decreases max - i
  {
    hide Column, Started, DealColumn, Sizes;
    if i == max {
      assert Columns(blocks, i, max) + rest == rest;
    } else {
      var more := Columns(blocks, i + 1, max) + rest;
      assert Columns(blocks, i, max) + rest == Column(blocks, i, 0) + more;
      DealColumnOf(blocks, i, 0, more);
      StartedNext(blocks, i);
      DealColumns(blocks, i + 1, max, rest);
    }
  }

  /** De-interleaving by block sizes returns the blocks, whatever follows them. */
  lemma DeinterleaveInterleaved<T>(blocks: Rows<T>, rest: seq<T>)
    ensures Deinterleave(Interleaved(blocks) + rest, Sizes(blocks)) == Ok(Dealt(blocks, rest))
  {
    var max := Longest(Sizes(blocks));
    forall r | 0 <= r < |blocks| ensures |blocks[r]| <= max {
      assert Sizes(blocks)[r] == |blocks[r]|;
    }
    hide *;
    DealColumns(blocks, 0, max, rest);
    StartedAll(blocks, max);
    DeinterleaveIs(Interleaved(blocks) + rest, Sizes(blocks));
    InterleavedIs(blocks);
  }

  lemma DeinterleaveIs<T>(words: seq<T>, sizes: seq<nat>)
    ensures Deinterleave(words, sizes) == Deal(words, sizes, 0, Longest(sizes), Empties(|sizes|))
  {
  }

  lemma InterleavedIs<T>(blocks: Rows<T>)
    ensures Interleaved(blocks) == Columns(blocks, 0, Longest(Sizes(blocks)))
  {
  }

  // --- Conservation ---

  function Flat<T>(blocks: Rows<T>): seq<T> {
    if |blocks| == 0 then [] else Flat(blocks[..|blocks| - 1]) + blocks[|blocks| - 1]
  }

  lemma {:induction false} FlatUpdate<T>(blocks: Rows<T>, r: nat, w: T)
    requires r < |blocks|
    ensures multiset(Flat(blocks[r := blocks[r] + [w]])) == multiset(Flat(blocks)) + multiset{w}
  {
    var n := |blocks| - 1;
    var after := blocks[r := blocks[r] + [w]];
    if r == n {
      assert after[..n] == blocks[..n];
      assert Flat(after) == Flat(blocks) + [w];
    } else {
      FlatUpdate(blocks[..n], r, w);
      assert after[..n] == blocks[..n][r := blocks[r] + [w]];
      assert Flat(after) == Flat(after[..n]) + blocks[n];
      assert Flat(blocks) == Flat(blocks[..n]) + blocks[n];
    }
  }

  lemma {:induction false} DealColumnConserves<T>(words: seq<T>, sizes: seq<nat>, i: nat, r: nat, blocks: Rows<T>)
    requires |blocks| == |sizes| && r <= |sizes|
    ensures var d := DealColumn(words, sizes, i, r, blocks);
            d.Ok? ==> multiset(Flat(d.value.blocks)) + multiset(d.value.rest) ==
              multiset(Flat(blocks)) + multiset(words)
    decreases |sizes| - r
  {
    if r >= |sizes| {
    } else {
      if i >= sizes[r] {
        DealColumnConserves(words, sizes, i, r + 1, blocks);
      } else if |words| > 0 {
        FlatUpdate(blocks, r, words[0]);
        assert words == [words[0]] + words[1..];
        DealColumnConserves(words[1..], sizes, i, r + 1, blocks[r := blocks[r] + [words[0]]]);
      }
    }
  }

  lemma {:induction false} DealConserves<T>(words: seq<T>, sizes: seq<nat>, i: nat, max: nat, blocks: Rows<T>)
    requires |blocks| == |sizes| && i <= max
    ensures var d := Deal(words, sizes, i, max, blocks);
            d.Ok? ==> multiset(Flat(d.value.blocks)) + multiset(d.value.rest) ==
              multiset(Flat(blocks)) + multiset(words)
    decreases max - i
  {
    if i >= max {
    } else {
      DealColumnConserves(words, sizes, i, 0, blocks);
      var d := DealColumn(words, sizes, i, 0, blocks);
      if d.Ok? { DealConserves(d.value.rest, sizes, i + 1, max, d.value.blocks); }
    }
  }

  lemma {:induction false} FlatEmpties<T>(n: nat)
    ensures Flat<T>(Empties(n)) == []
  {
    if n > 0 {
      FlatEmpties<T>(n - 1);
      assert Empties<T>(n)[..n - 1] == Empties<T>(n - 1);
    }
  }

  /** Interleaving emits every word of every block exactly once. */
  lemma InterleavedIsPermutation<T>(blocks: Rows<T>)
    ensures multiset(Interleaved(blocks)) == multiset(Flat(blocks))
    ensures |Interleaved(blocks)| == |Flat(blocks)|
  {
    hide Interleaved, Flat, Deal, Sizes, Longest;
    var words := Interleaved(blocks);
    DeinterleaveInterleaved(blocks, []);
    assert words + [] == words;
    DeinterleaveIs(words, Sizes(blocks));
    DealConserves(words, Sizes(blocks), 0, Longest(Sizes(blocks)), Empties(|blocks|));
    var d := Deal(words, Sizes(blocks), 0, Longest(Sizes(blocks)), Empties(|blocks|));
    assert d == Ok(Dealt(blocks, []));
    FlatEmpties<T>(|blocks|);
    assert multiset(Flat(blocks)) == multiset(Flat(Empties<T>(|blocks|))) + multiset(words);
    SameSize(words, Flat(blocks));
  }

  lemma SameSize<T>(a: seq<T>, b: seq<T>)
    ensures multiset(a) == multiset(b) ==> |a| == |b|
  {
    assert |multiset(a)| == |a| && |multiset(b)| == |b|;
  }
}
