/** From segments to code bytes: bit packing, terminator, padding, error correction. */
module CreateData {
  import opened Bits
  import opened BitBuffer
  import opened Interleaving
  import opened RsBlocks
  import opened QrMath
  import opened Exceptions

  /** One `put` of a segment's `write`. */
  datatype Field = Field(num: nat, count: nat) {
    predicate Valid() {
      num < 0x1_0000_0000 && count <= 32
    }
  }

  /** A piece of data: its mode, its length and the width of the length field, and what `write` puts. */
  datatype Segment = Segment(mode: nat, length: nat, lengthBits: nat, fields: seq<Field>) {
    predicate Valid() {
      Field(mode, 4).Valid() && Field(length, lengthBits).Valid() && forall i :: 0 <= i < |fields| ==> fields[i].Valid()
    }
  }

  function FieldBits(fs: seq<Field>): seq<bool> {
    if fs == [] then [] else FieldBits(fs[..|fs| - 1]) + MsbBits(fs[|fs| - 1].num, fs[|fs| - 1].count)
  }

  function SegmentBits(s: Segment): seq<bool> {
    MsbBits(s.mode, 4) + MsbBits(s.length, s.lengthBits) + FieldBits(s.fields)
  }

  function DataBits(list: seq<Segment>): seq<bool> {
    if list == [] then [] else DataBits(list[..|list| - 1]) + SegmentBits(list[|list| - 1])
  }

  // ----- padding -----

  /** The end-of-data mark, when there is room for all four bits of it. */
  function Terminated(bits: seq<bool>, capacity: nat): seq<bool> {
    if |bits| + 4 <= 8 * capacity then bits + Falses(4) else bits
  }

  /** Filled with zeros to a whole number of bytes. */
  function WholeBytes(bits: seq<bool>): seq<bool> {
    bits + Falses((8 - |bits| % 8) % 8)
  }

  const PAD0: nat := 0xEC
  const PAD1: nat := 0x11

  /** `n` pad bytes, alternating. */
  function PadBits(n: nat): (p: seq<bool>)
    ensures |p| == 8 * n
  {
    if n == 0 then [] else PadBits(n - 1) + MsbBits(if n % 2 == 1 then PAD0 else PAD1, WIDTH)
  }

  /** The data stream brought to exactly `capacity` bytes. */
  function PaddedBits(bits: seq<bool>, capacity: nat): seq<bool>
    requires |bits| <= 8 * capacity
  {
    var whole := WholeBytes(Terminated(bits, capacity));
    assert |whole| <= 8 * capacity;
    whole + PadBits(capacity - |whole| / 8)
  }

  /** From the end of the data on, `s` holds zeros up to less than a byte past the four-bit mark, and
      then the last `pad` bytes are pad bytes. */
  ghost predicate PaddedTail(s: seq<bool>, data: nat, capacity: nat, pad: nat) {
    && |s| == 8 * capacity && pad <= capacity && data <= 8 * (capacity - pad) < data + 12
    && (forall i :: data <= i < 8 * (capacity - pad) ==> !s[i])
    && s[8 * (capacity - pad)..] == PadBits(pad)
  }

  /** The stream fills the symbol exactly and starts with the data bits; the end-of-data mark is cut
      short only by the end of the symbol. */
  lemma PaddingFillsCapacity(bits: seq<bool>, capacity: nat)
    requires |bits| <= 8 * capacity
    ensures |PaddedBits(bits, capacity)| == 8 * capacity
    ensures bits <= PaddedBits(bits, capacity)
    ensures exists pad: nat :: PaddedTail(PaddedBits(bits, capacity), |bits|, capacity, pad)
    ensures forall i :: |bits| <= i < 8 * capacity && i < |bits| + 4 ==> !PaddedBits(bits, capacity)[i]
  {
    var t := Terminated(bits, capacity);
    var whole := WholeBytes(t);
    var pad := capacity - |whole| / 8;
    assert |whole| % 8 == 0;
    hide PadBits;
    assert PaddedTail(PaddedBits(bits, capacity), |bits|, capacity, pad);
  }

  // ----- the encoder -----

  method WriteSegments(buffer: QrBitBuffer, dataList: seq<Segment>)
    requires buffer.Valid() && buffer.Contents == []
    requires forall i :: 0 <= i < |dataList| ==> dataList[i].Valid()
    modifies buffer
    ensures buffer.Valid() && buffer.Contents == DataBits(dataList)
  {
    hide MsbBits, Stores;
    for i := 0 to |dataList|
      invariant buffer.Valid() && buffer.Contents == DataBits(dataList[..i])
    {
      var data := dataList[i];
      buffer.Put(data.mode, 4);
      buffer.Put(data.length, data.lengthBits);
      WriteFields(buffer, data.fields);
      assert dataList[..i + 1][..i] == dataList[..i];
    }
    assert dataList[..|dataList|] == dataList;
  }

  method WriteFields(buffer: QrBitBuffer, fields: seq<Field>)
    requires buffer.Valid()
    requires forall i :: 0 <= i < |fields| ==> fields[i].Valid()
    modifies buffer
    ensures buffer.Valid() && buffer.Contents == old(buffer.Contents) + FieldBits(fields)
  {
    hide MsbBits, Stores;
    for i := 0 to |fields|
      invariant buffer.Valid() && buffer.Contents == old(buffer.Contents) + FieldBits(fields[..i])
    {
      buffer.Put(fields[i].num, fields[i].count);
      assert fields[..i + 1][..i] == fields[..i];
    }
    assert fields[..|fields|] == fields;
  }

  /** Terminator, zero fill, pad bytes. */
  method PadBuffer(buffer: QrBitBuffer, totalDataCount: nat)
    requires buffer.Valid() && |buffer.Contents| <= 8 * totalDataCount
    modifies buffer
    ensures buffer.Valid() && buffer.Contents == PaddedBits(old(buffer.Contents), totalDataCount)
  {
    hide MsbBits, Stores, PadBits, Pow2, ToBits;
    ghost var bits := buffer.Contents;
    if buffer.length + 4 <= totalDataCount * 8 {
      buffer.Put(0, 4);
      ZeroBits();
    }
    assert buffer.Contents == Terminated(bits, totalDataCount);
    FillByte(buffer);
    WritePadBytes(buffer, totalDataCount);
  }

  method FillByte(buffer: QrBitBuffer)
    requires buffer.Valid()
    modifies buffer
    ensures buffer.Valid() && buffer.Contents == WholeBytes(old(buffer.Contents))
  {
    hide Stores;
    ghost var ended := buffer.Contents;
    while buffer.length % 8 != 0
      invariant buffer.Valid()
      invariant |ended| <= buffer.length <= |WholeBytes(ended)|
      invariant buffer.Contents == ended + Falses(buffer.length - |ended|)
      decreases |WholeBytes(ended)| - buffer.length
    {
      buffer.PutBit(false);
    }
  }

  method WritePadBytes(buffer: QrBitBuffer, totalDataCount: nat)
    requires buffer.Valid() && |buffer.Contents| % 8 == 0 && |buffer.Contents| <= 8 * totalDataCount
    modifies buffer
    ensures buffer.Valid()
    ensures buffer.Contents == old(buffer.Contents) + PadBits(totalDataCount - |old(buffer.Contents)| / 8)
  {
    ghost var whole := buffer.Contents;
    ghost var room := totalDataCount - |whole| / 8;
    ghost var n := 0;
    hide MsbBits, Stores, PadBits, Pow2, ToBits, Falses;
    PadStep(0);
    assert whole + PadBits(0) == whole;
    while true
      invariant buffer.Valid()
      invariant n <= room && n % 2 == 0 && buffer.Contents == whole + PadBits(n)
      decreases room - n
    {
      if buffer.length >= totalDataCount * 8 {
        break;
      }
      PadStep(n);
      JoinRight(whole, PadBits(n), MsbBits(PAD0, 8));
      buffer.Put(PAD0, 8);
      n := n + 1;
      if buffer.length >= totalDataCount * 8 {
        break;
      }
      PadStep(n);
      JoinRight(whole, PadBits(n), MsbBits(PAD1, 8));
      buffer.Put(PAD1, 8);
      n := n + 1;
    }
  }

  lemma PadStep(n: nat)
    ensures PadBits(0) == []
    ensures PadBits(n + 1) == PadBits(n) + MsbBits(if n % 2 == 0 then PAD0 else PAD1, 8)
  {
    hide MsbBits;
  }

  lemma ZeroBits()
    ensures MsbBits(0, 4) == Falses(4)
  {
    ToBitsZero(4);
  }

  method CreateData(math: QRMath, rsBlocks: seq<RsBlock>, dataList: seq<Segment>) returns (r: Result<seq<Byte>>, ghost buffer: seq<Byte>)
    requires math.Valid() && ValidBlocks(rsBlocks)
    requires forall i :: 0 <= i < |dataList| ==> dataList[i].Valid()
    ensures |DataBits(dataList)| > 8 * TotalData(rsBlocks) ==> r.Thrown?
    ensures |DataBits(dataList)| <= 8 * TotalData(rsBlocks) ==>
      && AllBits(buffer) == PaddedBits(DataBits(dataList), TotalData(rsBlocks))
      && (r.Thrown? <==> exists i :: 0 <= i < |rsBlocks| && TooManyChecks(DataBlock(buffer, rsBlocks, i), rsBlocks[i].EcCount()))
      && (r.Ok? ==> |r.value| == TotalCount(rsBlocks) && CodeBytes(r.value, buffer, rsBlocks))
  {
    hide MsbBits, Stores, PadBits, PaddedBits, CodeBytes, TooManyChecks, IsExpTable, IsLogTable;
    var bits := new QrBitBuffer();
    WriteSegments(bits, dataList);
    buffer := [];
    var totalDataCount := 0;
    for i := 0 to |rsBlocks|
      invariant totalDataCount == Offset(rsBlocks, i)
    {
      totalDataCount := totalDataCount + rsBlocks[i].dataCount;
    }
    if bits.length > totalDataCount * 8 {
      return Thrown, [];
    }
    PaddingFillsCapacity(bits.Contents, totalDataCount);
    PadBuffer(bits, totalDataCount);
    StoredExactly(bits.buffer, bits.Contents);
    buffer := bits.buffer;
    r := CreateBytes(math, bits.buffer, rsBlocks);
  }

  lemma StoredExactly(b: seq<Byte>, bits: seq<bool>)
    requires Stores(b, bits) && |bits| % 8 == 0 && 8 * |b| < |bits| + 8
    ensures AllBits(b) == bits && 8 * |b| == |bits|
  {
    hide AllBits;
    assert Falses(0) == [];
  }

  // ----- reading the segments back -----

  /** What a reader knows of a segment: the width of its length and of each of its fields. */
  datatype Shape = Shape(lengthBits: nat, widths: seq<nat>)

  function ShapeOf(s: Segment): Shape {
    Shape(s.lengthBits, Widths(s.fields))
  }

  function ShapesOf(list: seq<Segment>): (shapes: seq<Shape>)
    ensures |shapes| == |list|
  {
    seq(|list|, i requires 0 <= i < |list| => ShapeOf(list[i]))
  }

  /** The next `width` bits as a number, and what follows them. */
  function ReadNumber(s: seq<bool>, width: nat): Result<(nat, seq<bool>)> {
    if width <= |s| then Ok((MsbValue(s[..width]), s[width..])) else Thrown
  }

  function ReadFields(s: seq<bool>, widths: seq<nat>): Result<(seq<Field>, seq<bool>)>
    decreases |widths|
  {
    if widths == [] then Ok(([], s))
    else
      var num := ReadNumber(s, widths[0]);
      if num.Thrown? then Thrown
      else
        var fields := ReadFields(num.value.1, widths[1..]);
        if fields.Thrown? then Thrown
        else Ok(([Field(num.value.0, widths[0])] + fields.value.0, fields.value.1))
  }

  function ReadSegment(s: seq<bool>, shape: Shape): Result<(Segment, seq<bool>)> {
    var mode := ReadNumber(s, 4);
    if mode.Thrown? then Thrown
    else
      var length := ReadNumber(mode.value.1, shape.lengthBits);
      if length.Thrown? then Thrown
      else
        var fields := ReadFields(length.value.1, shape.widths);
        if fields.Thrown? then Thrown
        else Ok((Segment(mode.value.0, length.value.0, shape.lengthBits, fields.value.0), fields.value.1))
  }

  function ReadSegments(s: seq<bool>, shapes: seq<Shape>): Result<seq<Segment>>
    decreases |shapes|
  {
    if shapes == [] then Ok([])
    else
      var segment := ReadSegment(s, shapes[0]);
      if segment.Thrown? then Thrown
      else
        var list := ReadSegments(segment.value.1, shapes[1..]);
        if list.Thrown? then Thrown else Ok([segment.value.0] + list.value)
  }

  /** A number as its field can hold it. */
  function FieldHeld(f: Field): Field {
    Field(f.num % Pow2(f.count), f.count)
  }

  function Held(s: Segment): Segment {
    Segment(s.mode % 16, s.length % Pow2(s.lengthBits), s.lengthBits, HeldFields(s.fields))
  }

  function AllHeld(list: seq<Segment>): (held: seq<Segment>)
    ensures |held| == |list|
  {
    seq(|list|, i requires 0 <= i < |list| => Held(list[i]))
  }

  /** Every number of the segment fits its field. */
  predicate Fits(s: Segment) {
    && s.mode < 16 && s.length < Pow2(s.lengthBits)
    && forall i :: 0 <= i < |s.fields| ==> s.fields[i].num < Pow2(s.fields[i].count)
  }

  lemma NumberIsRead(n: nat, width: nat, rest: seq<bool>)
    ensures ReadNumber(MsbBits(n, width) + rest, width) == Ok((n % Pow2(width), rest))
  {
    hide MsbValue, MsbBits, Pow2;
    MsbValueOfBits(n, width);
    var b := MsbBits(n, width);
    assert (b + rest)[..width] == b && (b + rest)[width..] == rest;
  }

  lemma {:induction false} FieldBitsFront(fs: seq<Field>)
    requires fs != []
    ensures FieldBits(fs) == MsbBits(fs[0].num, fs[0].count) + FieldBits(fs[1..])
  {
    hide MsbBits;
    var n := |fs| - 1;
    if n > 0 {
      FieldBitsFront(fs[..n]);
      assert fs[..n][1..] == fs[1..][..n - 1];
    }
  }

  lemma {:induction false} DataBitsFront(list: seq<Segment>)
    requires list != []
    ensures DataBits(list) == SegmentBits(list[0]) + DataBits(list[1..])
  {
    hide SegmentBits;
    var n := |list| - 1;
    if n > 0 {
      DataBitsFront(list[..n]);
      assert list[..n][1..] == list[1..][..n - 1];
    }
  }

  function HeldFields(fs: seq<Field>): (held: seq<Field>)
    ensures |held| == |fs|
  {
    seq(|fs|, i requires 0 <= i < |fs| => FieldHeld(fs[i]))
  }

  function Widths(fs: seq<Field>): (widths: seq<nat>)
    ensures |widths| == |fs|
  {
    seq(|fs|, i requires 0 <= i < |fs| => fs[i].count)
  }

  lemma NoFields(rest: seq<bool>)
    ensures ReadFields(FieldBits([]) + rest, Widths([])) == Ok((HeldFields([]), rest))
  {
    assert FieldBits([]) + rest == rest;
  }

  lemma FieldsFront(fs: seq<Field>, bits: seq<bool>, rest: seq<bool>)
    requires fs != [] && bits == FieldBits(fs[1..]) + rest
    ensures Widths(fs)[0] == fs[0].count && Widths(fs)[1..] == Widths(fs[1..])
    ensures HeldFields(fs) == [Field(fs[0].num % Pow2(fs[0].count), fs[0].count)] + HeldFields(fs[1..])
    ensures FieldBits(fs) + rest == MsbBits(fs[0].num, fs[0].count) + bits
  {
    FieldBitsFront(fs);
    hide MsbBits, Pow2, FieldBits;
    assert MsbBits(fs[0].num, fs[0].count) + FieldBits(fs[1..]) + rest == MsbBits(fs[0].num, fs[0].count) + bits;
  }

  lemma {:induction false} FieldsAreRead(fs: seq<Field>, rest: seq<bool>)
    ensures ReadFields(FieldBits(fs) + rest, Widths(fs)) == Ok((HeldFields(fs), rest))
    decreases |fs|
  {
    hide *;
    if fs == [] {
      NoFields(rest);
    } else {
      var f, tail := fs[0], FieldBits(fs[1..]) + rest;
      FieldsFront(fs, tail, rest);
      FieldsAreRead(fs[1..], rest);
      NumberIsRead(f.num, f.count, tail);
      FieldsStep(FieldBits(fs) + rest, Widths(fs), f.num % Pow2(f.count), tail, HeldFields(fs[1..]), rest);
    }
  }

  lemma FieldsStep(s: seq<bool>, widths: seq<nat>, num: nat, mid: seq<bool>, fields: seq<Field>, rest: seq<bool>)
    requires widths != [] && ReadNumber(s, widths[0]) == Ok((num, mid)) && ReadFields(mid, widths[1..]) == Ok((fields, rest))
    ensures ReadFields(s, widths) == Ok(([Field(num, widths[0])] + fields, rest))
  {
    hide ReadNumber;
  }

  lemma SegmentStep(s: seq<bool>, shape: Shape, mode: nat, mid: seq<bool>, length: nat, mid': seq<bool>,
                    fields: seq<Field>, rest: seq<bool>)
    requires ReadNumber(s, 4) == Ok((mode, mid)) && ReadNumber(mid, shape.lengthBits) == Ok((length, mid'))
    requires ReadFields(mid', shape.widths) == Ok((fields, rest))
    ensures ReadSegment(s, shape) == Ok((Segment(mode, length, shape.lengthBits, fields), rest))
  {
    hide ReadNumber, ReadFields;
  }

  lemma SegmentsStep(s: seq<bool>, shapes: seq<Shape>, segment: Segment, mid: seq<bool>, list: seq<Segment>)
    requires shapes != [] && ReadSegment(s, shapes[0]) == Ok((segment, mid)) && ReadSegments(mid, shapes[1..]) == Ok(list)
    ensures ReadSegments(s, shapes) == Ok([segment] + list)
  {
    hide ReadSegment;
  }

  /** A segment is its mode in four bits, its length in the bits given for it, and its fields one after
      the other: that is what a reader gets back, and the reader is left with what follows. */
  lemma SegmentIsRead(s: Segment, rest: seq<bool>)
    ensures ReadSegment(SegmentBits(s) + rest, ShapeOf(s)) == Ok((Held(s), rest))
    ensures |SegmentBits(s)| >= 4 + s.lengthBits
    ensures MsbValue(SegmentBits(s)[..4]) == s.mode % 16
    ensures MsbValue(SegmentBits(s)[4..4 + s.lengthBits]) == s.length % Pow2(s.lengthBits)
  {
    var m, l, f := MsbBits(s.mode, 4), MsbBits(s.length, s.lengthBits), FieldBits(s.fields);
    assert Pow2(4) == 16 && SegmentBits(s) == m + l + f;
    assert ShapeOf(s) == Shape(s.lengthBits, Widths(s.fields));
    assert Held(s) == Segment(s.mode % 16, s.length % Pow2(s.lengthBits), s.lengthBits, HeldFields(s.fields));
    hide *;
    NumberIsRead(s.mode, 4, l + (f + rest));
    NumberIsRead(s.length, s.lengthBits, f + rest);
    FieldsAreRead(s.fields, rest);
    ThreeParts(m, l, f, rest);
    SegmentStep(SegmentBits(s) + rest, ShapeOf(s), s.mode % 16, l + (f + rest), s.length % Pow2(s.lengthBits), f + rest,
                HeldFields(s.fields), rest);
    MsbValueOfBits(s.mode, 4);
    MsbValueOfBits(s.length, s.lengthBits);
  }

  lemma ThreeParts(m: seq<bool>, l: seq<bool>, f: seq<bool>, rest: seq<bool>)
    ensures m + l + f + rest == m + (l + (f + rest))
    ensures (m + l + f)[..|m|] == m && (m + l + f)[|m|..|m| + |l|] == l
  {
  }

  lemma SegmentsFront(list: seq<Segment>, bits: seq<bool>, rest: seq<bool>)
    requires list != [] && bits == DataBits(list[1..]) + rest
    ensures ShapesOf(list)[0] == ShapeOf(list[0]) && ShapesOf(list)[1..] == ShapesOf(list[1..])
    ensures AllHeld(list) == [Held(list[0])] + AllHeld(list[1..])
    ensures DataBits(list) + rest == SegmentBits(list[0]) + bits
  {
    hide SegmentBits, DataBits, ShapeOf, Held;
    DataBitsFront(list);
    JoinRight(SegmentBits(list[0]), DataBits(list[1..]), rest);
    assert ShapesOf(list)[1..] == ShapesOf(list[1..]);
    assert AllHeld(list)[1..] == AllHeld(list[1..]) && AllHeld(list)[0] == Held(list[0]);
  }

  lemma JoinRight(a: seq<bool>, b: seq<bool>, c: seq<bool>)
    ensures a + b + c == a + (b + c)
  {
  }

  lemma {:induction false} SegmentsAreRead(list: seq<Segment>, rest: seq<bool>)
    ensures ReadSegments(DataBits(list) + rest, ShapesOf(list)) == Ok(AllHeld(list))
  {
    if list == [] {
      assert ShapesOf(list) == [] && AllHeld(list) == [];
    } else {
      hide *;
      var tail := DataBits(list[1..]) + rest;
      SegmentsFront(list, tail, rest);
      SegmentsAreRead(list[1..], rest);
      SegmentIsRead(list[0], tail);
      SegmentsStep(DataBits(list) + rest, ShapesOf(list), Held(list[0]), tail, AllHeld(list[1..]));
    }
  }

  /** Reading any stream that starts with the encoded data, with the widths of the segments, gives back the
      whole list, each number as its field holds it; and the list itself if every number fits its field. */
  lemma SegmentsRecovered(list: seq<Segment>, stream: seq<bool>)
    requires DataBits(list) <= stream
    ensures ReadSegments(stream, ShapesOf(list)) == Ok(AllHeld(list))
    ensures (forall i :: 0 <= i < |list| ==> Fits(list[i])) ==> ReadSegments(stream, ShapesOf(list)) == Ok(list)
  {
    hide DataBits, ReadSegments, Held, Fits;
    var n := |DataBits(list)|;
    assert stream == DataBits(list) + stream[n..];
    SegmentsAreRead(list, stream[n..]);
    if forall i :: 0 <= i < |list| ==> Fits(list[i]) {
      forall i | 0 <= i < |list| ensures AllHeld(list)[i] == list[i] {
        FittingIsHeld(list[i]);
      }
      assert AllHeld(list) == list;
    }
  }

  lemma FittingIsHeld(s: Segment)
    requires Fits(s)
    ensures Held(s) == s
  {
    hide Pow2;
    forall i | 0 <= i < |s.fields| ensures FieldHeld(s.fields[i]) == s.fields[i] {
      SmallRemainder(s.fields[i].num, Pow2(s.fields[i].count));
    }
    SmallRemainder(s.length, Pow2(s.lengthBits));
    assert Held(s).fields == s.fields;
  }

  lemma EightBits()
    ensures Pow2(8) == 256
  {
  }

  lemma ByteOfJoined(before: seq<bool>, last: seq<bool>, i: nat)
    requires |last| == 8 && |before| % 8 == 0 && i <= |before| / 8
    ensures (before + last)[8 * i..8 * i + 8] == if i < |before| / 8 then before[8 * i..8 * i + 8] else last
  {
  }

  /** The pad bytes are 0xEC and 0x11 in turn. */
  lemma {:induction false} PadBytesAlternate(n: nat, i: nat)
    requires i < n
    ensures MsbValue(PadBits(n)[8 * i..8 * i + 8]) == if i % 2 == 0 then 0xEC else 0x11
  {
    EightBits();
    hide MsbBits, MsbValue, PadBits, Pow2;
    PadStep(n - 1);
    var v := if (n - 1) % 2 == 0 then PAD0 else PAD1;
    var before, last := PadBits(n - 1), MsbBits(v, 8);
    ByteOfJoined(before, last, i);
    if i < n - 1 {
      PadBytesAlternate(n - 1, i);
    } else {
      MsbValueOfBits(v, 8);
    }
  }

  // ----- reading it back -----

  /** The data blocks partition the buffer. */
  lemma {:induction false} BlocksPartition(buffer: seq<Byte>, blocks: seq<RsBlock>, n: nat, ds: seq<seq<Byte>>)
    requires n <= |blocks| && ds == DataBlocks(buffer, blocks)[..n] && Offset(blocks, |blocks|) <= |buffer|
    ensures Offset(blocks, n) <= |buffer| && Flatten(ds) == buffer[..Offset(blocks, n)]
  {
    OffsetMonotone(blocks, n, |blocks|);
    if n > 0 {
      var m := n - 1;
      BlocksPartition(buffer, blocks, m, ds[..m]);
      assert DataBlocks(buffer, blocks)[..n][..m] == DataBlocks(buffer, blocks)[..m];
      var d, from := ds[m], Offset(blocks, m);
      assert d == DataBlock(buffer, blocks, m);
      OffsetNext(blocks, m);
      forall i | 0 <= i < |d| ensures d[i] == buffer[from + i] {
      }
      assert d == buffer[from..from + |d|];
      assert Flatten(ds) == Flatten(ds[..m]) + d;
    }
  }

  lemma OffsetNext(blocks: seq<RsBlock>, r: nat)
    requires r < |blocks|
    ensures Offset(blocks, r + 1) == Offset(blocks, r) + blocks[r].dataCount
  {
  }

  lemma {:induction false} OffsetMonotone(blocks: seq<RsBlock>, m: nat, n: nat)
    requires m <= n <= |blocks|
    ensures Offset(blocks, m) <= Offset(blocks, n)
  {
    if m < n { OffsetMonotone(blocks, m, n - 1); }
  }

  /** Cutting off the data part of the code bytes, de-interleaving it by the block sizes and joining
      the blocks gives a bit stream that starts with the encoded data. */
  lemma DataRecovered(out: seq<Byte>, buffer: seq<Byte>, bits: seq<bool>, blocks: seq<RsBlock>)
    requires ValidBlocks(blocks) && |bits| <= 8 * TotalData(blocks)
    requires AllBits(buffer) == PaddedBits(bits, TotalData(blocks)) && CodeBytes(out, buffer, blocks)
    ensures TotalData(blocks) <= |out|
    ensures forall r, i {:trigger Position(DataCounts(blocks), r, i)} ::
      0 <= r < |blocks| && 0 <= i < blocks[r].dataCount ==> Position(DataCounts(blocks), r, i) < TotalData(blocks)
    ensures bits <= AllBits(Flatten(Deinterleaved(out[..TotalData(blocks)], DataCounts(blocks))))
  {
    var ds := DataBlocks(buffer, blocks);
    var ecs :| Completes(ds, ecs, blocks) && out == Interleaved(ds) + Interleaved(ecs);
    BufferIsBlocks(buffer, bits, blocks);
    hide Completes, Interleaved, Position, Codeword, PaddedBits, AllBits, DataBlocks, Flatten, Offset;
    PaddingFillsCapacity(bits, TotalData(blocks));
    BlocksRecovered(out, ds, ecs);
  }

  lemma BufferIsBlocks(buffer: seq<Byte>, bits: seq<bool>, blocks: seq<RsBlock>)
    requires |bits| <= 8 * TotalData(blocks) && AllBits(buffer) == PaddedBits(bits, TotalData(blocks))
    ensures |buffer| == TotalData(blocks)
    ensures Flatten(DataBlocks(buffer, blocks)) == buffer
    ensures Lengths(DataBlocks(buffer, blocks)) == DataCounts(blocks)
  {
    var ds := DataBlocks(buffer, blocks);
    hide PaddedBits, AllBits;
    PaddingFillsCapacity(bits, TotalData(blocks));
    AllBitsLength(buffer);
    assert ds[..|blocks|] == ds;
    BlocksPartition(buffer, blocks, |blocks|, ds);
    assert buffer[..|buffer|] == buffer;
  }
}
