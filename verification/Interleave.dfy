/** Splitting the data codewords into blocks, appending error correction to each, and interleaving the blocks. */
module Interleave {
  import opened Galois
  import opened MinimumDistance
  import opened Polynomials
  import opened ReedSolomon
  import opened Wrappers

  /** The block structure of one version and error correction level, for any block count and lengths. */
  datatype Layout = Layout(numBlocks: nat, eccLen: nat, raw: nat) {

    ghost predicate Valid() {
      && numBlocks >= 1
      && 1 <= eccLen <= 255
      && eccLen <= raw / numBlocks
    }

    function NumShort(): (s: nat)
      requires Valid()
      ensures s <= numBlocks
    {
      numBlocks - raw % numBlocks
    }

    /** The number of data codewords in a short block; a long block has one more. */
    function ShortData(): (s: nat)
      requires Valid()
    {
      raw / numBlocks - eccLen
    }

    function DataLen(): int {
      raw - numBlocks * eccLen
    }

    /** Where the data of block j begins. */
    function Start(j: nat): nat
      requires Valid()
    {
      j * ShortData() + (if j <= NumShort() then 0 else j - NumShort())
    }

    /** The number of data codewords of block j. */
    function BlockData(j: nat): nat
      requires Valid()
    {
      if j < NumShort() then ShortData() else ShortData() + 1
    }

    /** Column i of block j holds a codeword: only the padding of short blocks does not. */
    predicate Used(i: nat, j: nat)
      requires Valid()
    {
      i != ShortData() || j >= NumShort()
    }

    /** Where codeword i of block j lands in the interleaved sequence. */
    function Place(i: nat, j: nat): int
      requires Valid()
    {
      i * numBlocks + j - (if i >= ShortData() then NumShort() else 0)
    }
  }

  // ----- the split -----

  lemma StartStep(l: Layout, j: nat)
    requires l.Valid()
    ensures l.Start(j + 1) == l.Start(j) + l.BlockData(j)
  {
    var s := l.ShortData();
    assert (j + 1) * s == j * s + s;
  }

  /** The blocks use up the data exactly. */
  lemma StartTotal(l: Layout)
    requires l.Valid()
    ensures l.Start(l.numBlocks) == l.DataLen()
  {
    var (n, q) := (l.numBlocks, l.raw / l.numBlocks);
    assert l.raw == n * q + l.raw % n;
    assert n * (q - l.eccLen) == n * q - n * l.eccLen;
  }

  lemma {:induction false} StartMonotone(l: Layout, j: nat, k: nat)
    requires l.Valid() && j <= k
    ensures l.Start(j) <= l.Start(k)
  {
    if j < k {
      StartMonotone(l, j, k - 1);
      StartStep(l, k - 1);
    }
  }

  lemma StartBound(l: Layout, j: nat)
    requires l.Valid() && j < l.numBlocks
    ensures l.Start(j) + l.BlockData(j) <= l.DataLen()
  {
    hide *;
    StartStep(l, j);
    StartMonotone(l, j + 1, l.numBlocks);
    StartTotal(l);
  }

  /** The data codewords of block j. */
  function Slice(l: Layout, data: seq<Byte>, j: nat): (s: seq<Byte>)
    requires l.Valid() && |data| == l.DataLen() && j < l.numBlocks
    ensures |s| == l.BlockData(j)
  {
    StartBound(l, j);
    data[l.Start(j)..l.Start(j) + l.BlockData(j)]
  }

  /** Block j as it is stored before interleaving: short blocks carry one padding byte before the ECC. */
  function Padded(l: Layout, data: seq<Byte>, j: nat): (s: seq<Byte>)
    requires l.Valid() && |data| == l.DataLen() && j < l.numBlocks
    ensures |s| == l.raw / l.numBlocks + 1
  {
    var dat := Slice(l, data, j);
    dat + (if j < l.NumShort() then [0] else []) + Remainder(dat, Divisor(l.eccLen))
  }

  // ----- the interleaving -----

  /** Column i of the first k blocks, without padding. */
  function Column(l: Layout, blocks: seq<seq<Byte>>, i: nat, k: nat): seq<Byte>
    requires l.Valid() && k <= |blocks| && forall b | b in blocks :: i < |b|
  {
    if k == 0 then []
    else Column(l, blocks, i, k - 1) + (if l.Used(i, k - 1) then [blocks[k - 1][i]] else [])
  }

  /** The first i columns, one after the other. */
  function Columns(l: Layout, blocks: seq<seq<Byte>>, i: nat): seq<Byte>
    requires l.Valid() && forall b | b in blocks :: i <= |b|
  {
    if i == 0 then [] else Columns(l, blocks, i - 1) + Column(l, blocks, i - 1, |blocks|)
  }

  function Blocks(l: Layout, data: seq<Byte>): (s: seq<seq<Byte>>)
    requires l.Valid() && |data| == l.DataLen()
    ensures |s| == l.numBlocks
    ensures forall b | b in s :: |b| == l.raw / l.numBlocks + 1
  {
    seq(l.numBlocks, j requires 0 <= j < l.numBlocks => Padded(l, data, j))
  }

  /** All codewords of the symbol in the order they are drawn. */
  function Interleaved(l: Layout, data: seq<Byte>): seq<Byte>
    requires l.Valid() && |data| == l.DataLen()
  {
    Columns(l, Blocks(l, data), l.raw / l.numBlocks + 1)
  }

  /** The first loop: cut the data, compute the ECC of each piece, pad the short blocks. */
  method SplitBlocks(l: Layout, data: seq<Byte>) returns (blocks: seq<seq<Byte>>)
    requires l.Valid() && |data| == l.DataLen()
    ensures blocks == Blocks(l, data)
  {
    hide Divisor, Remainder;
    var shortBlockLen := l.raw / l.numBlocks;
    blocks := [];
    var rsDiv := ReedSolomonComputeDivisor(l.eccLen);
    var k := 0;
    for i := 0 to l.numBlocks
      invariant |blocks| == i && k == l.Start(i)
      invariant forall j | 0 <= j < i :: blocks[j] == Padded(l, data, j)
    {
      StartBound(l, i);
      StartStep(l, i);
      var dat := data[k..k + shortBlockLen - l.eccLen + (if i < l.NumShort() then 0 else 1)];
      assert dat == Slice(l, data, i);
      k := k + |dat|;
      var ecc := ReedSolomonComputeRemainder(dat, rsDiv.value);
      if i < l.NumShort() {
        dat := dat + [0];
      }
      dat := dat + ecc;
      blocks := blocks + [dat];
    }
  }

  /** The second loop: emit the blocks column by column, skipping the padding. */
  method InterleaveBlocks(l: Layout, blocks: seq<seq<Byte>>, width: nat) returns (result: seq<Byte>)
    requires l.Valid() && |blocks| == l.numBlocks && forall b | b in blocks :: |b| == width
    ensures result == Columns(l, blocks, width)
  {
    result := [];
    for i := 0 to width
      invariant result == Columns(l, blocks, i)
    {
      ghost var done := result;
      for j := 0 to l.numBlocks
        invariant result == done + Column(l, blocks, i, j)
      {
        if i != l.raw / l.numBlocks - l.eccLen || j >= l.NumShort() {
          result := result + [blocks[j][i]];
        }
      }
    }
  }

  method AddEccAndInterleave(l: Layout, data: seq<Byte>) returns (r: Option<seq<Byte>>)
    requires l.Valid()
    ensures r.Some? <==> |data| == l.DataLen()
    ensures r.Some? ==> r.value == Interleaved(l, data) && |r.value| == l.raw
  {
    hide Blocks, Columns;
    if |data| != l.DataLen() {
      return None;
    }
    var blocks := SplitBlocks(l, data);
    var result := InterleaveBlocks(l, blocks, l.raw / l.numBlocks + 1);
    InterleavedLength(l, data);
    assert |result| == l.raw;  // the final length check of the source cannot fail
    return Some(result);
  }

  lemma {:induction false} ColumnLength(l: Layout, blocks: seq<seq<Byte>>, i: nat, k: nat)
    requires l.Valid() && k <= |blocks| && forall b | b in blocks :: i < |b|
    ensures |Column(l, blocks, i, k)| ==
            if i != l.ShortData() then k else if k <= l.NumShort() then 0 else k - l.NumShort()
  {
    if k > 0 { ColumnLength(l, blocks, i, k - 1); }
  }

  lemma {:induction false} ColumnsLength(l: Layout, blocks: seq<seq<Byte>>, i: nat)
    requires l.Valid() && |blocks| == l.numBlocks && forall b | b in blocks :: i <= |b|
    ensures |Columns(l, blocks, i)| == i * l.numBlocks - (if i > l.ShortData() then l.NumShort() else 0)
  {
    if i > 0 {
      ColumnsLength(l, blocks, i - 1);
      ColumnLength(l, blocks, i - 1, l.numBlocks);
      assert i * l.numBlocks == (i - 1) * l.numBlocks + l.numBlocks;
    }
  }

  /** The interleaved sequence has exactly the raw number of codewords. */
  lemma InterleavedLength(l: Layout, data: seq<Byte>)
    requires l.Valid() && |data| == l.DataLen()
    ensures |Interleaved(l, data)| == l.raw
  {
    hide Blocks, Columns;
    var (n, q) := (l.numBlocks, l.raw / l.numBlocks);
    ColumnsLength(l, Blocks(l, data), q + 1);
    RawParts(l.raw, n);
  }

  lemma RawParts(raw: nat, n: nat)
    requires n >= 1
    ensures (raw / n + 1) * n - (n - raw % n) == raw
  {
    assert raw == n * (raw / n) + raw % n;
  }

  // ----- reading the blocks back -----

  lemma {:induction false} ColumnAt(l: Layout, blocks: seq<seq<Byte>>, i: nat, k: nat, j: nat)
    requires l.Valid() && j < k <= |blocks| && (forall b | b in blocks :: i < |b|) && l.Used(i, j)
    ensures var c := j - (if i == l.ShortData() then l.NumShort() else 0);
            0 <= c < |Column(l, blocks, i, k)| && Column(l, blocks, i, k)[c] == blocks[j][i]
  {
    ColumnLength(l, blocks, i, k);
    ColumnLength(l, blocks, i, k - 1);
    if j < k - 1 {
      ColumnAt(l, blocks, i, k - 1, j);
    }
  }

  /** Every codeword that is not padding is found at its place. */
  lemma {:induction false} ColumnsAt(l: Layout, blocks: seq<seq<Byte>>, w: nat, i: nat, j: nat)
    requires l.Valid() && |blocks| == l.numBlocks && forall b | b in blocks :: w <= |b|
    requires i < w && j < l.numBlocks && l.Used(i, j)
    ensures 0 <= l.Place(i, j) < |Columns(l, blocks, w)|
    ensures Columns(l, blocks, w)[l.Place(i, j)] == blocks[j][i]
  {
    hide Column;
    if i < w - 1 {
      ColumnsAt(l, blocks, w - 1, i, j);
    } else {
      ColumnsLength(l, blocks, i);
      ColumnAt(l, blocks, i, l.numBlocks, j);
    }
  }

  lemma PlaceBound(l: Layout, i: nat, j: nat)
    requires l.Valid() && i <= l.raw / l.numBlocks && j < l.numBlocks && l.Used(i, j)
    ensures 0 <= l.Place(i, j) < l.raw
  {
    var (n, q) := (l.numBlocks, l.raw / l.numBlocks);
    RawParts(l.raw, n);
    MulMonotone(i, q, n);
    if i > 0 { MulMonotone(1, i, n); }
    if i < q { MulMonotone(i + 1, q, n); }
    PlaceRange(l.raw, n, l.NumShort(), i * n, q * n, i < q, i > 0, l.ShortData() <= i, l.ShortData() == i, j);
  }

  lemma MulMonotone(a: nat, b: nat, n: nat)
    requires a <= b
    ensures a * n <= b * n && (a + 1) * n == a * n + n
  {
  }

  /** The arithmetic of PlaceBound, with the products of columns and blocks as plain numbers. */
  lemma PlaceRange(raw: nat, n: nat, short: nat, start: nat, all: nat,
                   inner: bool, later: bool, shifted: bool, padding: bool, j: nat)
    requires all + n - short == raw && short <= n && j < n && start <= all
    requires inner ==> start + n <= all
    requires later ==> n <= start
    requires padding ==> shifted && inner && j >= short
    requires shifted && !padding ==> later
    requires !shifted ==> inner
    ensures 0 <= start + j - (if shifted then short else 0) < raw
  {
  }

  /** The column of a padded block that holds codeword i of the unpadded block j. */
  function Source(l: Layout, j: nat, i: nat): (c: nat)
    requires l.Valid() && j < l.numBlocks && i < l.BlockData(j) + l.eccLen
    ensures c <= l.raw / l.numBlocks && l.Used(c, j)
  {
    if i < l.BlockData(j) || j >= l.NumShort() then i else i + 1
  }

  /** A reader's view of block j: its data followed by its error correction codewords. */
  function BlockOf(l: Layout, codewords: seq<Byte>, j: nat): (s: seq<Byte>)
    requires l.Valid() && |codewords| == l.raw && j < l.numBlocks
    ensures |s| == l.BlockData(j) + l.eccLen
  {
    seq(l.BlockData(j) + l.eccLen, i requires 0 <= i < l.BlockData(j) + l.eccLen =>
      PlaceBound(l, Source(l, j, i), j);
      codewords[l.Place(Source(l, j, i), j)])
  }

  /** De-interleaving recovers every block: its data and exactly its error correction codewords. */
  lemma BlockRecovered(l: Layout, data: seq<Byte>, j: nat)
    requires l.Valid() && |data| == l.DataLen() && j < l.numBlocks
    ensures |Interleaved(l, data)| == l.raw
    ensures BlockOf(l, Interleaved(l, data), j) == EncodeBlock(Slice(l, data, j), l.eccLen)
  {
    hide Columns, Divisor, Remainder, Column, Padded, EncodeBlock;
    InterleavedLength(l, data);
    var c := Interleaved(l, data);
    var b := EncodeBlock(Slice(l, data, j), l.eccLen);
    forall i | 0 <= i < |b| ensures BlockOf(l, c, j)[i] == b[i] {
      CodewordRecovered(l, data, j, i);
    }
  }

  lemma CodewordRecovered(l: Layout, data: seq<Byte>, j: nat, i: nat)
    requires l.Valid() && |data| == l.DataLen() && j < l.numBlocks && i < l.BlockData(j) + l.eccLen
    ensures 0 <= l.Place(Source(l, j, i), j) < |Interleaved(l, data)|
    ensures Interleaved(l, data)[l.Place(Source(l, j, i), j)] == EncodeBlock(Slice(l, data, j), l.eccLen)[i]
  {
    hide Columns, Column, Padded, EncodeBlock, Source;
    ColumnsAt(l, Blocks(l, data), l.raw / l.numBlocks + 1, Source(l, j, i), j);
    PaddedAt(l, data, j, i);
  }

  lemma PaddedAt(l: Layout, data: seq<Byte>, j: nat, i: nat)
    requires l.Valid() && |data| == l.DataLen() && j < l.numBlocks && i < l.BlockData(j) + l.eccLen
    ensures Padded(l, data, j)[Source(l, j, i)] == EncodeBlock(Slice(l, data, j), l.eccLen)[i]
  {
    hide Divisor, Remainder;
  }

  /** The data parts of the first k blocks, in order. */
  function Deinterleaved(l: Layout, codewords: seq<Byte>, k: nat): seq<Byte>
    requires l.Valid() && |codewords| == l.raw && k <= l.numBlocks
  {
    if k == 0 then []
    else Deinterleaved(l, codewords, k - 1) + BlockOf(l, codewords, k - 1)[..l.BlockData(k - 1)]
  }

  lemma {:induction false} DeinterleavedPrefix(l: Layout, data: seq<Byte>, k: nat)
    requires l.Valid() && |data| == l.DataLen() && k <= l.numBlocks
    ensures |Interleaved(l, data)| == l.raw && l.Start(k) <= |data|
    ensures Deinterleaved(l, Interleaved(l, data), k) == data[..l.Start(k)]
  {
    hide Interleaved, BlockOf, EncodeBlock;
    InterleavedLength(l, data);
    if k > 0 {
      DeinterleavedPrefix(l, data, k - 1);
      StartBound(l, k - 1);
      StartStep(l, k - 1);
      BlockRecovered(l, data, k - 1);
      EncodeBlockPrefix(Slice(l, data, k - 1), l.eccLen);
    }
  }

  lemma EncodeBlockPrefix(data: seq<Byte>, degree: nat)
    requires degree >= 1
    ensures EncodeBlock(data, degree)[..|data|] == data
  {
  }

  /** Dropping the error correction codewords and joining the blocks gives back the data. */
  lemma DataRecovered(l: Layout, data: seq<Byte>)
    requires l.Valid() && |data| == l.DataLen()
    ensures |Interleaved(l, data)| == l.raw
    ensures Deinterleaved(l, Interleaved(l, data), l.numBlocks) == data
  {
    hide Interleaved, Deinterleaved;
    DeinterleavedPrefix(l, data, l.numBlocks);
    StartTotal(l);
  }

  // ----- damage -----

  lemma {:induction false} SlicesAgree(l: Layout, data: seq<Byte>, data': seq<Byte>, k: nat)
    requires l.Valid() && |data| == |data'| == l.DataLen() && k <= l.numBlocks
    requires forall j: nat | j < k :: Slice(l, data, j) == Slice(l, data', j)
    ensures l.Start(k) <= |data| && data[..l.Start(k)] == data'[..l.Start(k)]
  {
    if k > 0 {
      SlicesAgree(l, data, data', k - 1);
      StartBound(l, k - 1);
      StartStep(l, k - 1);
      var (a, b) := (l.Start(k - 1), l.Start(k));
      assert Slice(l, data, k - 1) == Slice(l, data', k - 1);
      assert data[..b] == data[..a] + Slice(l, data, k - 1) && data'[..b] == data'[..a] + Slice(l, data', k - 1);
    }
  }

  /** Every block of the received codewords differs from what was sent in at most half its ECC length. */
  ghost predicate Repairable(l: Layout, received: seq<Byte>, data: seq<Byte>)
    requires l.Valid() && |received| == l.raw && |data| == l.DataLen()
  {
    forall j: nat | j < l.numBlocks ::
      2 * Distance(EncodeBlock(Slice(l, data, j), l.eccLen), BlockOf(l, received, j)) <= l.eccLen
  }

  /** Codewords damaged in at most half the ECC length per block still determine the data. */
  lemma DamageTolerated(l: Layout, received: seq<Byte>, data: seq<Byte>, data': seq<Byte>)
    requires l.Valid() && |received| == l.raw && |data| == |data'| == l.DataLen() && l.raw / l.numBlocks + 1 <= 255
    requires Repairable(l, received, data) && Repairable(l, received, data')
    ensures data == data'
  {
    hide Distance, EncodeBlock, BlockOf, Slice;
    forall j: nat | j < l.numBlocks ensures Slice(l, data, j) == Slice(l, data', j) {
      ErrorsAreCorrectable(Slice(l, data, j), Slice(l, data', j), l.eccLen, BlockOf(l, received, j), l.eccLen / 2);
    }
    SlicesAgree(l, data, data', l.numBlocks);
    StartTotal(l);
  }
}
