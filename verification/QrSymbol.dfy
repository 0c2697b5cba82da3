/** A whole symbol: data to code bytes to modules, and what a scanner gets back. */
module QrSymbol {
  import opened Bits
  import opened BitBuffer
  import opened Interleaving
  import opened QrMath
  import opened RsBlocks
  import opened CreateData
  import opened Placement
  import opened Exceptions

  /** How many free modules the symbol has for data. */
  function FreeModules(g: Grid, n: nat): nat
    requires SymbolSize(n) && Square(g, n)
  {
    Rank(g, n, StripCount(n), 0, 0)
  }

  /** A scanner that reads the modules along the walk, undoes the mask, groups the bits into as many bytes
      as the symbol has code bytes, de-interleaves the data part by the block sizes and joins the blocks,
      gets a bit stream that starts with the bits that were encoded. */
  lemma ScanRecoversData(g: Grid, g': Grid, n: nat, pattern: nat, out: seq<Byte>, buffer: seq<Byte>, bits: seq<bool>,
                         blocks: seq<RsBlock>, scanned: seq<Byte>)
    requires SymbolSize(n) && Square(g, n) && pattern < 8 && IsPlaced(g, g', n, out, pattern)
    requires 8 * |out| <= FreeModules(g, n)
    requires ValidBlocks(blocks) && |bits| <= 8 * TotalData(blocks)
    requires AllBits(buffer) == PaddedBits(bits, TotalData(blocks)) && CodeBytes(out, buffer, blocks)
    requires |scanned| == |out| && AllBits(scanned) <= ReadBits(g, g', n, pattern, StripCount(n), 0, 0)
    ensures scanned == out && TotalData(blocks) <= |scanned|
    ensures forall r, i {:trigger Position(DataCounts(blocks), r, i)} ::
      0 <= r < |blocks| && 0 <= i < blocks[r].dataCount ==> Position(DataCounts(blocks), r, i) < TotalData(blocks)
    ensures bits <= AllBits(Flatten(Deinterleaved(scanned[..TotalData(blocks)], DataCounts(blocks))))
  {
    assert Square(g', n);
    hide IsPlaced, ReadBits, AllBits, PaddedBits, CodeBytes, Rank, Flatten, Deinterleaved, Position, TotalData;
    ReadBack(g, g', n, out, pattern);
    AllBitsLength(scanned);
    AllBitsLength(out);
    SamePrefix(AllBits(scanned), AllBits(out), ReadBits(g, g', n, pattern, StripCount(n), 0, 0));
    AllBitsInjective(scanned, out);
    DataRecovered(out, buffer, bits, blocks);
  }

  /** End to end: what the scanner has read, cut up by the widths of the segments, is the list of segments
      the symbol was made from, if every number of them fits its field. */
  lemma ScanRecoversSegments(g: Grid, g': Grid, n: nat, pattern: nat, out: seq<Byte>, buffer: seq<Byte>, list: seq<Segment>,
                             blocks: seq<RsBlock>, scanned: seq<Byte>)
    requires SymbolSize(n) && Square(g, n) && pattern < 8 && IsPlaced(g, g', n, out, pattern)
    requires 8 * |out| <= FreeModules(g, n)
    requires ValidBlocks(blocks) && |DataBits(list)| <= 8 * TotalData(blocks)
    requires AllBits(buffer) == PaddedBits(DataBits(list), TotalData(blocks)) && CodeBytes(out, buffer, blocks)
    requires |scanned| == |out| && AllBits(scanned) <= ReadBits(g, g', n, pattern, StripCount(n), 0, 0)
    requires forall i :: 0 <= i < |list| ==> Fits(list[i])
    ensures TotalData(blocks) <= |scanned|
    ensures forall r, i {:trigger Position(DataCounts(blocks), r, i)} ::
      0 <= r < |blocks| && 0 <= i < blocks[r].dataCount ==> Position(DataCounts(blocks), r, i) < TotalData(blocks)
    ensures ReadSegments(AllBits(Flatten(Deinterleaved(scanned[..TotalData(blocks)], DataCounts(blocks)))), ShapesOf(list)) == Ok(list)
  {
    hide IsPlaced, ReadBits, AllBits, PaddedBits, CodeBytes, Rank, Flatten, Deinterleaved, Position, TotalData, DataBits, Fits,
      ReadSegments;
    ScanRecoversData(g, g', n, pattern, out, buffer, DataBits(list), blocks, scanned);
    SegmentsRecovered(list, AllBits(Flatten(Deinterleaved(scanned[..TotalData(blocks)], DataCounts(blocks)))));
  }

  lemma SamePrefix(a: seq<bool>, b: seq<bool>, s: seq<bool>)
    requires a <= s && b <= s && |a| == |b|
    ensures a == b
  {
  }

  /** Builds the symbol of a data list with a given mask. Finders and timing lines are in the finished symbol
      wherever no alignment or format module was written; `g` is the symbol before its data, whose unset
      modules are exactly the others. */
  method MakeSymbol(math: QRMath, rsBlocks: seq<RsBlock>, dataList: seq<Segment>, n: nat, alignment: seq<FixedModule>,
                    format: seq<FixedModule>, maskPattern: nat)
    returns (ok: bool, m: array2<Cell>, ghost g: Grid, ghost out: seq<Byte>, ghost buffer: seq<Byte>)
    requires math.Valid() && ValidBlocks(rsBlocks) && SymbolSize(n) && maskPattern < 8
    requires forall i :: 0 <= i < |dataList| ==> dataList[i].Valid()
    requires forall k :: 0 <= k < |alignment| ==> alignment[k].row < n && alignment[k].col < n
    requires forall k :: 0 <= k < |format| ==> format[k].row < n && format[k].col < n
    ensures ok <==>
      && |DataBits(dataList)| <= 8 * TotalData(rsBlocks)
      && !exists i :: 0 <= i < |rsBlocks| && TooManyChecks(DataBlock(buffer, rsBlocks, i), rsBlocks[i].EcCount())
    ensures ok ==> m.Length0 == m.Length1 == n && Square(g, n) && IsPlaced(g, Snapshot(m), n, out, maskPattern)
    ensures ok ==> AllBits(buffer) == PaddedBits(DataBits(dataList), TotalData(rsBlocks)) && CodeBytes(out, buffer, rsBlocks)
    ensures ok ==> forall i, j :: 0 <= i < n && 0 <= j < n ==> m[i, j] != None
    ensures ok ==> forall i, j :: 0 <= i < 8 && 0 <= j < 8 && !Touched(alignment, i, j) && !Touched(format, i, j) ==>
        m[i, j] == Some(Ring(i, j) != 2 && Ring(i, j) != 4)
    ensures ok ==> forall i, j :: n - 8 <= i < n && 0 <= j < 8 && !Touched(alignment, i, j) && !Touched(format, i, j) ==>
        m[i, j] == Some(Ring(i - (n - 7), j) != 2 && Ring(i - (n - 7), j) != 4)
    ensures ok ==> forall i, j :: 0 <= i < 8 && n - 8 <= j < n && !Touched(alignment, i, j) && !Touched(format, i, j) ==>
        m[i, j] == Some(Ring(i, j - (n - 7)) != 2 && Ring(i, j - (n - 7)) != 4)
    ensures ok ==> forall i :: 8 <= i < n - 8 && !Touched(alignment, i, 6) && !Touched(format, i, 6) ==> m[i, 6] == Some(i % 2 == 0)
    ensures ok ==> forall j :: 8 <= j < n - 8 && !Touched(alignment, 6, j) && !Touched(format, 6, j) ==> m[6, j] == Some(j % 2 == 0)
    ensures ok ==> forall k {:trigger LastAt(alignment, k)} ::
      0 <= k < |alignment| && LastAt(alignment, k) && !Touched(format, alignment[k].row, alignment[k].col) ==>
        m[alignment[k].row, alignment[k].col] == Some(alignment[k].dark)
    ensures ok ==> forall k {:trigger LastAt(format, k)} ::
      0 <= k < |format| && LastAt(format, k) ==> m[format[k].row, format[k].col] == Some(format[k].dark)
    ensures ok ==> forall i, j :: 0 <= i < n && 0 <= j < n ==> (g[i][j] != None ==> m[i, j] == g[i][j]) && (g[i][j] == None <==>
      && i != 6 && j != 6 && !(i < 8 && j < 8) && !(n - 8 <= i && j < 8) && !(i < 8 && n - 8 <= j)
      && !Touched(alignment, i, j) && !Touched(format, i, j))
  {
    hide IsPlaced, Touched, LastAt, Ring, AllBits, PaddedBits, CodeBytes, DataBits, TotalData, TooManyChecks, QRMath.Valid;
    var data: Result<seq<Byte>>;
    data, buffer := CreateData.CreateData(math, rsBlocks, dataList);
    if data.Thrown? {
      ok, out, g := false, [], [];
      m := new Cell[0, 0];
      return;
    }
    ok, out := true, data.value;
    m, g := MakeImpl(n, alignment, format, data.value, maskPattern);
  }
}
