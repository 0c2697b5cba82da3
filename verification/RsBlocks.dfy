/** The error-correction blocks of a symbol, and the code bytes built from them. */
module RsBlocks {
  import opened Bits
  import opened Gf256
  import opened Polynomials
  import opened Codewords
  import opened QrMath
  import opened QrPolynomial
  import opened Interleaving
  import opened Exceptions

  datatype RsBlock = RsBlock(totalCount: nat, dataCount: nat) {
    predicate Valid() {
      dataCount <= totalCount
    }

    function EcCount(): nat
      requires Valid()
    {
      totalCount - dataCount
    }
  }

  /** A word of the code with `k` check symbols: a multiple of the generator. */
  ghost predicate Codeword(w: seq<Byte>, k: nat) {
    k <= |w| && exists q: seq<Byte> {:trigger Convolve(q, Generator(k))} :: |q| == |w| - k && w == Convolve(q, Generator(k))
  }

  lemma CodewordRoots(w: seq<Byte>, k: nat)
    requires Codeword(w, k)
    ensures HasRoots(w, k)
  {
    hide HasRoots;
    var q: seq<Byte> :| |q| == |w| - k && w == Convolve(q, Generator(k));
    MultipleHasRoots(q, k);
  }

  /** A multiple of a monic polynomial that starts with as many zeros as the quotient is long is zero. */
  lemma ZeroQuotient(s: seq<Byte>, g: seq<Byte>)
    requires |g| > 0 && g[0] == 1
    requires forall i :: 0 <= i < |s| ==> Convolve(s, g)[i] == 0
    ensures Convolve(s, g) == Zeros(|s| + |g| - 1)
  {
    hide Convolve;
    if exists i :: 0 <= i < |s| && s[i] != 0 {
      var i := FirstNonzero(s);
      LeadingTerm(s, g, i);
      assert false;
    }
    assert s == Zeros(|s|);
    ConvolveZeros(|s|, g);
  }

  /** The check bytes of a block are determined by its data bytes. */
  lemma CheckBytesUnique(d: seq<Byte>, a: seq<Byte>, b: seq<Byte>, k: nat)
    requires |a| == |b| == k && Codeword(d + a, k) && Codeword(d + b, k)
    ensures a == b
  {
    var g, n := Generator(k), |d|;
    var p: seq<Byte> :| |p| == n && d + a == Convolve(p, g);
    var q: seq<Byte> :| |q| == n && d + b == Convolve(q, g);
    hide Xor, Convolve, Generator, Add, Zeros;
    ConvolveSum(p, q, g);
    AddConcat(d, d, a, b);
    AddSelf(d);
    GeneratorMonic(k);
    SplitZero(Convolve(Add(p, q), g), n, Add(a, b));
    ZeroQuotient(Add(p, q), g);
    ZeroTail(n, k, Add(a, b));
    SumIsZero(a, b);
  }

  lemma SplitZero(w: seq<Byte>, n: nat, t: seq<Byte>)
    requires w == Zeros(n) + t
    ensures forall i :: 0 <= i < n ==> w[i] == 0
  {
  }

  lemma ZeroTail(n: nat, k: nat, t: seq<Byte>)
    requires |t| == k && Zeros(n) + t == Zeros(n + k)
    ensures t == Zeros(k)
  {
    forall i | 0 <= i < k ensures t[i] == 0 {
      assert (Zeros(n) + t)[n + i] == Zeros(n + k)[n + i];
    }
  }

  /** With at most 255 symbols in a block, a received word within half the number of check symbols of
      a codeword is that close to no other: up to ecCount / 2 wrong bytes can be corrected. */
  lemma UniqueDecoding(a: seq<Byte>, b: seq<Byte>, received: seq<Byte>, k: nat)
    requires |a| == |b| == |received| <= 255
    requires Codeword(a, k) && Codeword(b, k)
    requires 2 * Distance(a, received) <= k && 2 * Distance(b, received) <= k
    ensures a == b
  {
    CodewordRoots(a, k);
    CodewordRoots(b, k);
    hide Codeword, HasRoots, Distance;
    DistanceTriangle(a, b, received);
    if a != b { MinimumDistance(a, b, k); }
  }

  lemma {:induction false} DistanceTriangle(a: seq<Byte>, b: seq<Byte>, c: seq<Byte>)
    requires |a| == |b| == |c|
    ensures Distance(a, b) <= Distance(a, c) + Distance(b, c)
  {
    if a != [] { DistanceTriangle(a[..|a| - 1], b[..|a| - 1], c[..|a| - 1]); }
  }

  // ----- one block -----

  /** The remainder of data * x^k, padded to `k` bytes and appended to the data, completes a codeword. */
  lemma RemainderCompletes(data: seq<Byte>, k: nat, r: seq<Byte>)
    requires |r| <= k && IsRemainder(Stripped(data) + Zeros(k), Generator(k), r)
    ensures Codeword(data + Padded(r, k), k)
  {
    hide Xor, Convolve, Generator, Stripped;
    var g, t := Generator(k), Stripped(data);
    var z := |data| - |t|;
    var v := t + Zeros(k);
    if t == [] {
      assert v == Zeros(k) && Padded(r, k) == Zeros(k);
      assert data + Padded(r, k) == Zeros(|data| + k);
      ConvolveZeros(|data|, g);
    } else {
      var q :| Divides(v, g, q, r);
      var w := Convolve(q, g);
      AddCancels(w, Padded(r, |v|));
      assert Padded(r, |v|) == Zeros(|t|) + Padded(r, k);
      AddConcat(t, Zeros(|t|), Zeros(k), Padded(r, k));
      AddZeros(t);
      AddZeros(Padded(r, k));
      assert w == t + Padded(r, k);
      ConvolveLeadingZeros(z, q, g);
      assert data + Padded(r, k) == Zeros(z) + w;
      assert data + Padded(r, k) == Convolve(Zeros(z) + q, g);
    }
  }

  /** The block shapes the encoder cannot handle: more check symbols than the field allows. */
  predicate TooManyChecks(data: seq<Byte>, ecCount: nat) {
    ecCount > 255 || (ecCount == 255 && Stripped(data) != [])
  }

  /** The error-correction bytes of one block. */
  method EncodeBlock(math: QRMath, data: seq<Byte>, ecCount: nat) returns (r: Result<seq<Byte>>)
    requires math.Valid()
    ensures r.Thrown? <==> TooManyChecks(data, ecCount)
    ensures r.Ok? ==> |r.value| == ecCount && Codeword(data + r.value, ecCount)
  {
    hide Alpha, Xor, Convolve, Generator, IsExpTable, IsLogTable, IsRemainder, Stripped, Codeword;
    var rsPoly := GetErrorCorrectPolynomial(math, ecCount);
    if rsPoly.Thrown? {
      return Thrown;
    }
    var k := rsPoly.value.Length() - 1;
    var rawPoly := MakePoly(data, 0, k);
    GeneratorMonic(ecCount);
    GeneratorFactors(ecCount);
    var modPoly := Mod(math, rawPoly, rsPoly.value);
    if modPoly.Thrown? {
      return Thrown;
    }
    var rest := modPoly.value;
    var ec := new Byte[k];
    for i := 0 to k
      invariant forall j :: 0 <= j < i ==> ec[j] == Padded(rest.Coefficients(), k)[j]
    {
      var modIndex: int := i + rest.Length() - k;
      ec[i] := if modIndex >= 0 && modIndex < |rest.coeffs| then rest.coeffs[modIndex] else 0;
    }
    assert ec[..] == Padded(rest.Coefficients(), k);
    RemainderCompletes(data, k, rest.Coefficients());
    return Ok(ec[..]);
  }

  // ----- all blocks -----

  /** Byte `i` of the bit buffer; past its end the script reads `undefined`, and 0xff & undefined is 0. */
  function ByteAt(buffer: seq<Byte>, i: nat): Byte {
    if i < |buffer| then buffer[i] else 0
  }

  /** How many buffer bytes the first `r` blocks take. */
  function Offset(blocks: seq<RsBlock>, r: nat): nat
    requires r <= |blocks|
  {
    if r == 0 then 0 else Offset(blocks, r - 1) + blocks[r - 1].dataCount
  }

  function DataBlock(buffer: seq<Byte>, blocks: seq<RsBlock>, r: nat): (d: seq<Byte>)
    requires r < |blocks|
    ensures |d| == blocks[r].dataCount
  {
    seq<Byte>(blocks[r].dataCount, i requires 0 <= i => ByteAt(buffer, Offset(blocks, r) + i))
  }

  /** The buffer cut into consecutive data blocks. */
  function DataBlocks(buffer: seq<Byte>, blocks: seq<RsBlock>): (ds: seq<seq<Byte>>)
    ensures |ds| == |blocks|
  {
    seq(|blocks|, r requires 0 <= r < |blocks| => DataBlock(buffer, blocks, r))
  }

  ghost predicate ValidBlocks(blocks: seq<RsBlock>) {
    forall r :: 0 <= r < |blocks| ==> blocks[r].Valid()
  }

  /** `ecs` completes each data block to a codeword. */
  ghost predicate Completes(ds: seq<seq<Byte>>, ecs: seq<seq<Byte>>, blocks: seq<RsBlock>)
    requires ValidBlocks(blocks)
  {
    && |ds| == |ecs| == |blocks|
    && forall r :: 0 <= r < |blocks| ==>
         |ecs[r]| == blocks[r].EcCount() && Codeword(ds[r] + ecs[r], blocks[r].EcCount())
  }

  lemma CompletesUnique(ds: seq<seq<Byte>>, a: seq<seq<Byte>>, b: seq<seq<Byte>>, blocks: seq<RsBlock>)
    requires ValidBlocks(blocks) && Completes(ds, a, blocks) && Completes(ds, b, blocks)
    ensures a == b
  {
    hide Codeword;
    forall r | 0 <= r < |blocks| ensures a[r] == b[r] {
      CheckBytesUnique(ds[r], a[r], b[r], blocks[r].EcCount());
    }
  }

  function TotalCount(blocks: seq<RsBlock>): nat {
    if blocks == [] then 0 else TotalCount(blocks[..|blocks| - 1]) + blocks[|blocks| - 1].totalCount
  }

  lemma {:induction false} FlattenedLengths(ds: seq<seq<Byte>>, ecs: seq<seq<Byte>>, blocks: seq<RsBlock>)
    requires |ds| == |ecs| == |blocks| && ValidBlocks(blocks)
    requires forall r :: 0 <= r < |blocks| ==> |ds[r]| == blocks[r].dataCount && |ecs[r]| == blocks[r].EcCount()
    ensures |Flatten(ds)| + |Flatten(ecs)| == TotalCount(blocks)
  {
    if blocks != [] {
      var n := |blocks| - 1;
      FlattenedLengths(ds[..n], ecs[..n], blocks[..n]);
    }
  }

  /** The inner copying loop: entry `i` of every block that has one. */
  method WriteColumn(bs: seq<seq<Byte>>, i: nat, data: array<Byte>, start: nat) returns (index: nat)
    requires start + |Column(bs, i)| <= data.Length
    modifies data
    ensures index == start + |Column(bs, i)|
    ensures data[..index] == old(data[..start]) + Column(bs, i)
  {
    hide Column;
    index := start;
    ColumnOfNone(bs, i, bs[..0]);
    for r := 0 to |bs|
      invariant index == start + |Column(bs[..r], i)| <= data.Length
      invariant data[..index] == old(data[..start]) + Column(bs[..r], i)
    {
      ColumnNext(bs, r, i, bs[..r], bs[..r + 1]);
      if i < |bs[r]| {
        data[index] := bs[r][i];
        index := index + 1;
      }
    }
    assert bs[..|bs|] == bs;
  }

  /** One of the two copying loops: column by column into `data` from `start` on. */
  method WriteColumns(bs: seq<seq<Byte>>, maxCount: nat, data: array<Byte>, start: nat) returns (index: nat)
    requires MaxLength(bs) == maxCount && start + |Interleaved(bs)| <= data.Length
    modifies data
    ensures index == start + |Interleaved(bs)|
    ensures data[..index] == old(data[..start]) + Interleaved(bs)
  {
    hide Column;
    index := start;
    for i := 0 to maxCount
      invariant index == start + |Columns(bs, i)|
      invariant index <= data.Length
      invariant data[..index] == old(data[..start]) + Columns(bs, i)
    {
      ColumnsMonotone(bs, i + 1, maxCount);
      index := WriteColumn(bs, i, data, index);
    }
  }

  lemma ColumnOfNone<T>(bs: seq<seq<T>>, i: nat, p: seq<seq<T>>)
    requires p == bs[..0]
    ensures Column(p, i) == []
  {
  }

  lemma {:induction false} ColumnsMonotone<T>(bs: seq<seq<T>>, m: nat, n: nat)
    requires m <= n
    ensures |Columns(bs, m)| <= |Columns(bs, n)|
  {
    if m < n { ColumnsMonotone(bs, m, n - 1); }
  }

  lemma ColumnNext<T>(bs: seq<seq<T>>, r: nat, i: nat, p: seq<seq<T>>, q: seq<seq<T>>)
    requires r < |bs| && p == bs[..r] && q == bs[..r + 1]
    ensures Column(q, i) == Column(p, i) + (if i < |bs[r]| then [bs[r][i]] else [])
    ensures |Column(q, i)| <= |Column(bs, i)|
  {
    assert q[..r] == p;
    ColumnPrefix(bs, r + 1, i);
  }

  lemma {:induction false} ColumnPrefix<T>(bs: seq<seq<T>>, r: nat, i: nat)
    requires r <= |bs|
    ensures |Column(bs[..r], i)| <= |Column(bs, i)|
  {
    if r < |bs| {
      var n := |bs| - 1;
      ColumnPrefix(bs[..n], r, i);
      assert bs[..n][..r] == bs[..r];
    } else {
      assert bs[..r] == bs;
    }
  }

  /** What `createBytes` outputs: the interleaved data blocks, then the interleaved check bytes that
      complete each of them to a codeword. */
  ghost predicate CodeBytes(out: seq<Byte>, buffer: seq<Byte>, blocks: seq<RsBlock>)
    requires ValidBlocks(blocks)
  {
    var ds := DataBlocks(buffer, blocks);
    exists ecs :: Completes(ds, ecs, blocks) && out == Interleaved(ds) + Interleaved(ecs)
  }

  /** The buffer and the block list determine the output: nothing else has the promised form. */
  lemma CodeBytesUnique(out: seq<Byte>, other: seq<Byte>, buffer: seq<Byte>, blocks: seq<RsBlock>)
    requires ValidBlocks(blocks) && CodeBytes(out, buffer, blocks) && CodeBytes(other, buffer, blocks)
    ensures out == other
  {
    hide Completes, Interleaved, DataBlocks;
    var ds := DataBlocks(buffer, blocks);
    var a :| Completes(ds, a, blocks) && out == Interleaved(ds) + Interleaved(a);
    var b :| Completes(ds, b, blocks) && other == Interleaved(ds) + Interleaved(b);
    CompletesUnique(ds, a, b, blocks);
  }

  /** The data bytes of block `r`, read one by one from the buffer. */
  method ReadBlock(buffer: seq<Byte>, ghost blocks: seq<RsBlock>, ghost r: nat, offset: nat, dcCount: nat) returns (d: seq<Byte>)
    requires r < |blocks| && offset == Offset(blocks, r) && dcCount == blocks[r].dataCount
    ensures d == DataBlock(buffer, blocks, r)
  {
    d := [];
    for i := 0 to dcCount
      invariant d == DataBlock(buffer, blocks, r)[..i]
    {
      d := d + [ByteAt(buffer, i + offset)];
    }
  }

  /** The first loop: every data block with its check bytes, and the longest of each. */
  method BuildBlocks(math: QRMath, buffer: seq<Byte>, rsBlocks: seq<RsBlock>)
    returns (ok: bool, dcdata: seq<seq<Byte>>, ecdata: seq<seq<Byte>>, maxDcCount: nat, maxEcCount: nat)
    requires math.Valid() && ValidBlocks(rsBlocks)
    ensures !ok <==> exists r :: 0 <= r < |rsBlocks| && TooManyChecks(DataBlock(buffer, rsBlocks, r), rsBlocks[r].EcCount())
    ensures ok ==> dcdata == DataBlocks(buffer, rsBlocks) && Completes(dcdata, ecdata, rsBlocks)
    ensures ok ==> maxDcCount == MaxLength(dcdata) && maxEcCount == MaxLength(ecdata)
  {
    hide Codeword, IsExpTable, IsLogTable, TooManyChecks, DataBlock, MaxLength;
    var offset := 0;
    dcdata, ecdata, maxDcCount, maxEcCount := [], [], 0, 0;
    MaxLengthEmpty(dcdata);
    MaxLengthEmpty(ecdata);
    for r := 0 to |rsBlocks|
      invariant offset == Offset(rsBlocks, r)
      invariant |dcdata| == |ecdata| == r
      invariant maxDcCount == MaxLength(dcdata) && maxEcCount == MaxLength(ecdata)
      invariant forall j :: 0 <= j < r ==> dcdata[j] == DataBlock(buffer, rsBlocks, j)
      invariant forall j :: 0 <= j < r ==>
        |ecdata[j]| == rsBlocks[j].EcCount() && Codeword(dcdata[j] + ecdata[j], rsBlocks[j].EcCount())
      invariant forall j :: 0 <= j < r ==> !TooManyChecks(DataBlock(buffer, rsBlocks, j), rsBlocks[j].EcCount())
    {
      var dcCount := rsBlocks[r].dataCount;
      var ecCount := rsBlocks[r].totalCount - dcCount;
      maxDcCount := if maxDcCount < dcCount then dcCount else maxDcCount;
      maxEcCount := if maxEcCount < ecCount then ecCount else maxEcCount;
      var d := ReadBlock(buffer, rsBlocks, r, offset, dcCount);
      offset := offset + dcCount;
      var ec := EncodeBlock(math, d, ecCount);
      if ec.Thrown? {
        return false, [], [], 0, 0;
      }
      MaxLengthSnoc(dcdata, d);
      MaxLengthSnoc(ecdata, ec.value);
      dcdata, ecdata := dcdata + [d], ecdata + [ec.value];
    }
    return true, dcdata, ecdata, maxDcCount, maxEcCount;
  }

  lemma MaxLengthEmpty<T>(bs: seq<seq<T>>)
    requires bs == []
    ensures MaxLength(bs) == 0
  {
  }

  lemma MaxLengthSnoc<T>(bs: seq<seq<T>>, b: seq<T>)
    ensures MaxLength(bs + [b]) == if MaxLength(bs) < |b| then |b| else MaxLength(bs)
  {
    assert (bs + [b])[..|bs|] == bs;
  }

  method TotalCodeCount(rsBlocks: seq<RsBlock>) returns (total: nat)
    ensures total == TotalCount(rsBlocks)
  {
    total := 0;
    for i := 0 to |rsBlocks|
      invariant total == TotalCount(rsBlocks[..i])
    {
      assert rsBlocks[..i + 1][..i] == rsBlocks[..i];
      total := total + rsBlocks[i].totalCount;
    }
    assert rsBlocks[..|rsBlocks|] == rsBlocks;
  }

  lemma InterleavedLengths(buffer: seq<Byte>, blocks: seq<RsBlock>, ecs: seq<seq<Byte>>)
    requires ValidBlocks(blocks) && Completes(DataBlocks(buffer, blocks), ecs, blocks)
    ensures |Interleaved(DataBlocks(buffer, blocks))| + |Interleaved(ecs)| == TotalCount(blocks)
  {
    hide Interleaved, Flatten, TotalCount, Codeword;
    FlattenedLengths(DataBlocks(buffer, blocks), ecs, blocks);
    InterleavedIsPermutation(DataBlocks(buffer, blocks));
    InterleavedIsPermutation(ecs);
  }

  method CreateBytes(math: QRMath, buffer: seq<Byte>, rsBlocks: seq<RsBlock>) returns (result: Result<seq<Byte>>)
    requires math.Valid() && ValidBlocks(rsBlocks)
    ensures result.Thrown? <==>
      exists r :: 0 <= r < |rsBlocks| && TooManyChecks(DataBlock(buffer, rsBlocks, r), rsBlocks[r].EcCount())
    ensures result.Ok? ==> |result.value| == TotalCount(rsBlocks) && CodeBytes(result.value, buffer, rsBlocks)
  {
    hide Interleaved, MaxLength, TotalCount, Completes, TooManyChecks, DataBlock, DataBlocks, IsExpTable, IsLogTable;
    var ok, dcdata, ecdata, maxDcCount, maxEcCount := BuildBlocks(math, buffer, rsBlocks);
    if !ok {
      return Thrown;
    }
    var totalCodeCount := TotalCodeCount(rsBlocks);
    InterleavedLengths(buffer, rsBlocks, ecdata);
    var data := new Byte[totalCodeCount];
    var index := WriteColumns(dcdata, maxDcCount, data, 0);
    index := WriteColumns(ecdata, maxEcCount, data, index);
    assert data[..] == data[..index] == Interleaved(dcdata) + Interleaved(ecdata);
    return Ok(data[..]);
  }

  /** Reading the output back: cut it after the data, de-interleave both parts by the block sizes, and
      every block is there, each a codeword. The output is a permutation of all their bytes. */
  lemma BlocksRecovered(out: seq<Byte>, ds: seq<seq<Byte>>, ecs: seq<seq<Byte>>)
    requires out == Interleaved(ds) + Interleaved(ecs)
    ensures multiset(out) == multiset(Flatten(ds)) + multiset(Flatten(ecs))
    ensures |Flatten(ds)| <= |out|
    ensures var a, b := out[..|Flatten(ds)|], out[|Flatten(ds)|..];
      && (forall r, i {:trigger Position(Lengths(ds), r, i)} ::
            0 <= r < |ds| && 0 <= i < |ds[r]| ==> Position(Lengths(ds), r, i) < |a|)
      && (forall r, i {:trigger Position(Lengths(ecs), r, i)} ::
            0 <= r < |ecs| && 0 <= i < |ecs[r]| ==> Position(Lengths(ecs), r, i) < |b|)
      && Deinterleaved(a, Lengths(ds)) == ds
      && Deinterleaved(b, Lengths(ecs)) == ecs
  {
    InterleavedIsPermutation(ds);
    InterleavedIsPermutation(ecs);
    DeinterleavedInterleaved(ds);
    DeinterleavedInterleaved(ecs);
    hide Interleaved, Flatten, Deinterleaved, Position;
    assert out[..|Flatten(ds)|] == Interleaved(ds) && out[|Flatten(ds)|..] == Interleaved(ecs);
  }

  // ----- where every byte of the output is -----

  function TotalData(blocks: seq<RsBlock>): nat {
    Offset(blocks, |blocks|)
  }

  function DataCounts(blocks: seq<RsBlock>): (ls: seq<nat>)
    ensures |ls| == |blocks|
  {
    seq(|blocks|, r requires 0 <= r < |blocks| => blocks[r].dataCount)
  }

  function EcCounts(blocks: seq<RsBlock>): (ls: seq<nat>)
    requires ValidBlocks(blocks)
    ensures |ls| == |blocks|
  {
    seq(|blocks|, r requires 0 <= r < |blocks| => blocks[r].EcCount())
  }

  lemma {:induction false} FlattenedData(ds: seq<seq<Byte>>, blocks: seq<RsBlock>, n: nat)
    requires n == |ds| <= |blocks|
    requires forall r :: 0 <= r < n ==> |ds[r]| == blocks[r].dataCount
    ensures |Flatten(ds)| == Offset(blocks, n)
  {
    if n > 0 { FlattenedData(ds[..n - 1], blocks, n - 1); }
  }

  /** Reading the output by positions alone. It has as many bytes as the blocks have symbols. Cut it after
      the data and de-interleave the first part by the data counts and the second by the check counts: the
      `r`-th blocks of the two are the consecutive buffer bytes that follow the earlier blocks, and as many
      check bytes as block `r` has, and together they are a codeword. */
  lemma CodeBytesByPosition(out: seq<Byte>, buffer: seq<Byte>, blocks: seq<RsBlock>)
    requires ValidBlocks(blocks) && CodeBytes(out, buffer, blocks)
    ensures TotalData(blocks) <= |out| == TotalCount(blocks)
    ensures forall r, i {:trigger Position(DataCounts(blocks), r, i)} ::
      0 <= r < |blocks| && 0 <= i < blocks[r].dataCount ==>
        Position(DataCounts(blocks), r, i) < TotalData(blocks) &&
        var at := Offset(blocks, r) + i;
        out[Position(DataCounts(blocks), r, i)] == if at < |buffer| then buffer[at] else 0
    ensures forall r, i {:trigger Position(EcCounts(blocks), r, i)} ::
      0 <= r < |blocks| && 0 <= i < blocks[r].EcCount() ==> Position(EcCounts(blocks), r, i) < |out| - TotalData(blocks)
    ensures forall r :: 0 <= r < |blocks| ==>
      var data := Deinterleaved(out[..TotalData(blocks)], DataCounts(blocks))[r];
      var check := Deinterleaved(out[TotalData(blocks)..], EcCounts(blocks))[r];
      && |data| == blocks[r].dataCount && |check| == blocks[r].EcCount()
      && (forall i :: 0 <= i < |data| ==> var at := Offset(blocks, r) + i; data[i] == if at < |buffer| then buffer[at] else 0)
      && Codeword(data + check, blocks[r].EcCount())
  {
    hide Interleaved, Flatten, TotalCount, Codeword, Position, Deinterleaved, Offset, ByteAt, DataBlock;
    var ds := DataBlocks(buffer, blocks);
    var ecs :| Completes(ds, ecs, blocks) && out == Interleaved(ds) + Interleaved(ecs);
    InterleavedLengths(buffer, blocks, ecs);
    FlattenedData(ds, blocks, |blocks|);
    assert Lengths(ds) == DataCounts(blocks);
    assert Lengths(ecs) == EcCounts(blocks);
    BlocksRecovered(out, ds, ecs);
    forall r, i | 0 <= r < |blocks| && 0 <= i < blocks[r].dataCount
      ensures Position(DataCounts(blocks), r, i) < TotalData(blocks)
      ensures var at := Offset(blocks, r) + i;
        out[Position(DataCounts(blocks), r, i)] == if at < |buffer| then buffer[at] else 0
    {
      var a := out[..TotalData(blocks)];
      DeinterleavedAt(a, DataCounts(blocks), r, i);
      DataBlockBytes(buffer, blocks, r);
      assert ds[r][i] == DataBlock(buffer, blocks, r)[i];
    }
    forall r | 0 <= r < |blocks|
      ensures ds[r] == DataBlock(buffer, blocks, r)
      ensures forall i :: 0 <= i < |ds[r]| ==> var at := Offset(blocks, r) + i; ds[r][i] == if at < |buffer| then buffer[at] else 0
    {
      DataBlockBytes(buffer, blocks, r);
    }
  }

  lemma DataBlockBytes(buffer: seq<Byte>, blocks: seq<RsBlock>, r: nat)
    requires r < |blocks|
    ensures var d := DataBlock(buffer, blocks, r);
      forall i :: 0 <= i < |d| ==> var at := Offset(blocks, r) + i; d[i] == if at < |buffer| then buffer[at] else 0
  {
    var d, from := DataBlock(buffer, blocks, r), Offset(blocks, r);
    forall i | 0 <= i < |d| ensures d[i] == ByteAt(buffer, from + i) {
    }
  }

  lemma DeinterleavedAt(s: seq<Byte>, ls: seq<nat>, r: nat, i: nat)
    requires forall r, i {:trigger Position(ls, r, i)} :: 0 <= r < |ls| && 0 <= i < ls[r] ==> Position(ls, r, i) < |s|
    requires r < |ls| && i < ls[r]
    ensures |Deinterleaved(s, ls)[r]| == ls[r] && Deinterleaved(s, ls)[r][i] == s[Position(ls, r, i)]
  {
    hide Position;
  }
}
