/** The GIF writer's compression loop: a string table, a code width and a bit stream, all updated in
    place. */
module LzwRaster {
  import opened Bits
  import opened BitOutput
  import opened GifDecoder
  import opened Lzw
  import opened LzwNames

  /** `keys` numbers the strings of `table` by their places in it. */
  ghost predicate Numbers(keys: map<Pixels, nat>, table: seq<Pixels>) {
    && (forall i :: 0 <= i < |table| ==> table[i] in keys && keys[table[i]] == i)
    && (forall s :: s in keys ==> s in table)
  }

  lemma NumbersSnoc(keys: map<Pixels, nat>, table: seq<Pixels>, s: Pixels)
    requires Numbers(keys, table) && s !in table
    ensures Numbers(keys[s := |table|], table + [s])
  {
    var t := table + [s];
    forall x | x in keys[s := |table|] ensures x in t {
      if x == s { assert t[|table|] == s; }
    }
  }

  lemma NumberIsIndex(keys: map<Pixels, nat>, table: seq<Pixels>, s: Pixels)
    requires Numbers(keys, table) && s in table
    ensures s in keys && keys[s] == IndexOf(table, s)
  {
    assert table[IndexOf(table, s)] == s;
  }

  class LzwTable {
    var keys: map<Pixels, nat>
    var count: nat

    /** This table holds the strings of `table`, in that order. */
    ghost predicate Holds(table: seq<Pixels>)
      reads this
    {
      count == |table| && Numbers(keys, table)
    }

    constructor ()
      ensures Holds([])
    {
      keys, count := map[], 0;
    }

    /** A key that is there, or that every object inherits, throws. */
    method Add(key: Pixels, ghost table: seq<Pixels>) returns (ok: bool)
      requires Holds(table)
      modifies this
      ensures ok <==> key !in table && !IsInherited(key)
      ensures Holds(if ok then table + [key] else table)
    {
      hide IsInherited;
      var known := Contains(key, table);
      if known {
        return false;
      }
      NumbersSnoc(keys, table, key);
      keys := keys[key := count];
      count := count + 1;
      return true;
    }

    /** An inherited member is not a number, and is written as 0. */
    method IndexOf(key: Pixels, ghost table: seq<Pixels>) returns (i: nat)
      requires Holds(table)
      requires key in table || IsInherited(key)
      ensures i == NumberOf(table, key)
    {
      hide IsInherited;
      if key in keys {
        NumberIsIndex(keys, table, key);
        i := keys[key];
      } else {
        i := 0;
      }
    }

    /** The object answers for its own keys and for inherited ones. */
    method Contains(key: Pixels, ghost table: seq<Pixels>) returns (b: bool)
      requires Holds(table)
      ensures b <==> key in table || IsInherited(key)
    {
      b := key in keys || IsInherited(key);
    }

    function Size(): nat
      reads this
    {
      count
    }
  }

  lemma CodeBitsSnoc(cs: seq<Code>, c: Code)
    ensures CodeBits(cs + [c]) == CodeBits(cs) + ToBits(c.value, c.width)
  {
    assert (cs + [c])[..|cs|] == cs;
  }

  /** One pixel cannot spell a name. */
  lemma OnePixelMeetsNone(m: nat, c: nat)
    requires 2 <= m <= 8 && c < Pow2(m)
    ensures PixelsBelow([c], Pow2(m)) && !MeetsName(m, [c])
  {
    hide Safe, Pow2, FeedNamed;
    forall i | 0 < i <= 1 ensures !IsInherited(FeedAllNamed(m, [c][..i]).s) {
      assert [c][..1] == [c];
      FirstIsNoName(m, [c]);
    }
  }

  method InitialLzwTable(m: nat) returns (table: LzwTable, ok: bool)
    ensures fresh(table) && ok && table.Holds(InitialTable(m))
  {
    hide Numbers, IsInherited;
    var t := InitialTable(m);
    table := new LzwTable();
    ok := true;
    var i := 0;
    while i < Pow2(m)
      invariant ok && 0 <= i <= Pow2(m) && fresh(table) && table.Holds(t[..i])
    {
      assert t[..i + 1] == t[..i] + [[i]];
      SmallIsNoName([i]);
      ok := table.Add([i], t[..i]);
      i := i + 1;
    }
    SmallIsNoName([ClearCode(m)]);
    SmallIsNoName([EndCode(m)]);
    assert t[..i + 1] == t[..i] + [[ClearCode(m)]];
    ok := table.Add([ClearCode(m)], t[..i]);
    assert t == t[..i + 1] + [[EndCode(m)]];
    ok := table.Add([EndCode(m)], t[..i + 1]);
  }

  /** One code onto the stream. */
  method WriteCode(bitOut: BitOutputStream, c: Code, ghost codes: seq<Code>) returns (ok: bool)
    requires bitOut.Valid() && bitOut.Contents() == CodeBits(codes) && c.width <= MAX_WIDTH && c.value < Pow2(c.width)
    modifies bitOut
    ensures ok && bitOut.Valid() && bitOut.Contents() == CodeBits(codes + [c])
  {
    hide CodeBits, ToBits;
    SmallPowers();
    Pow2Monotone(c.width, MAX_WIDTH);
    CodeBitsSnoc(codes, c);
    ok := bitOut.Write(c.value, c.width);
  }

  /** One turn of the loop: extends the matched string, or writes its code, widens the codes if the table
      has filled the current width, and enters the extended string. */
  method FeedPixel(table: LzwTable, bitOut: BitOutputStream, s: Pixels, bitLength: nat, c: nat, ghost e: Encoder)
    returns (s': Pixels, bitLength': nat)
    requires table.Holds(e.table) && s == e.s && bitLength == e.width && (s in e.table || IsInherited(s))
    requires bitOut.Valid() && bitOut.Contents() == CodeBits(e.codes)
    requires 0 < e.width <= MAX_WIDTH && NumberOf(e.table, e.s) < Pow2(e.width)
    modifies table, bitOut
    ensures var e' := FeedNamed(e, c);
      && table.Holds(e'.table) && s' == e'.s && bitLength' == e'.width
      && bitOut.Valid() && bitOut.Contents() == CodeBits(e'.codes)
  {
    hide CodeBits, Pow2, NumberOf, Numbers, IsInherited;
    s', bitLength' := s, bitLength;
    var known := table.Contains(s + [c], e.table);
    if known {
      s' := s + [c];
    } else {
      var code := table.IndexOf(s, e.table);
      var ok := WriteCode(bitOut, Code(code, bitLength), e.codes);
      if !ok { assert false; }
      if table.Size() < FULL {
        if table.Size() == Pow2(bitLength) {
          bitLength' := bitLength + 1;
        }
        ok := table.Add(s + [c], e.table);
        if !ok { assert false; }
      }
      s' := [c];
    }
  }

  /** `bits`, filled up with fewer than eight zeros. */
  ghost predicate FilledUp(stream: seq<bool>, bits: seq<bool>) {
    && |bits| <= |stream| < |bits| + 8
    && stream == bits + Falses(|stream| - |bits|)
  }

  /** The facts about the compressor that the next write needs. */
  lemma NextCode(m: nat, data: Pixels, e: Encoder)
    requires 2 <= m <= 8 && data != [] && PixelsBelow(data, Pow2(m)) && e == FeedAllNamed(m, data)
    ensures (e.s in e.table || IsInherited(e.s)) && 0 < e.width <= MAX_WIDTH
    ensures NumberOf(e.table, e.s) < Pow2(e.width) && EndCode(m) < Pow2(e.width)
  {
    hide FeedAllNamed, NumberOf, EndCode, Pow2, IsInherited, NoNames;
    NumberFits(m, e);
  }

  lemma FeedNext(m: nat, data: Pixels, i: nat)
    requires 2 <= m <= 8 && PixelsBelow(data, Pow2(m)) && 0 < i < |data|
    ensures PixelsBelow(data[..i], Pow2(m)) && PixelsBelow(data[..i + 1], Pow2(m))
    ensures FeedAllNamed(m, data[..i + 1]) == FeedNamed(FeedAllNamed(m, data[..i]), data[i])
  {
    hide FeedNamed, Safe, Pow2;
    var d := data[..i + 1];
    assert d[..|d| - 1] == data[..i] && d[|d| - 1] == data[i];
  }

  lemma FirstFed(m: nat, data: Pixels)
    requires 2 <= m <= 8 && data != [] && PixelsBelow(data, Pow2(m))
    ensures PixelsBelow(data[..1], Pow2(m)) && FeedAllNamed(m, data[..1]) == Start(m, data[0])
  {
    hide Safe, Pow2, Start;
  }

  /** `EncodeNamed` is what has been written once the last string and the end code are out. */
  lemma LastCodes(m: nat, data: Pixels, e: Encoder)
    requires 2 <= m <= 8 && data != [] && PixelsBelow(data, Pow2(m)) && e == FeedAllNamed(m, data)
    ensures EncodeNamed(m, data) == e.codes + [Code(NumberOf(e.table, e.s), e.width)] + [Code(EndCode(m), e.width)]
  {
    hide FeedAllNamed, NumberOf, EndCode;
  }

  /** What a decoder gets out of the bytes of a raster file. */
  ghost predicate DecodesTo(m: nat, bytes: seq<Byte>, data: Pixels) {
    var d := Read(m, InitialDecoder(m), StreamBits(bytes));
    d.status != Failed && d.out == data
  }

  lemma {:induction false} FirstCodeIsClear(m: nat, data: Pixels)
    requires 2 <= m <= 8 && data != [] && PixelsBelow(data, Pow2(m))
    ensures FeedAllNamed(m, data).codes != [] && FeedAllNamed(m, data).codes[0] == Code(Pow2(m), m + 1)
  {
    hide Pow2;
    if |data| > 1 { FirstCodeIsClear(m, data[..|data| - 1]); }
  }

  lemma ClearsFirst(m: nat, data: Pixels, stream: seq<bool>)
    requires 2 <= m <= 8 && data != [] && PixelsBelow(data, Pow2(m))
    requires FilledUp(stream, CodeBits(EncodeNamed(m, data)))
    ensures |stream| > m && FromBits(stream[..m + 1]) == Pow2(m)
  {
    hide CodeBits, PixelsBelow, Pow2, ToBits, FromBits, FeedAllNamed, NumberOf;
    FirstCodeIsClear(m, data);
    CodeBitsFirst(EncodeNamed(m, data));
    PowerBelowNext(m);
    FromToBits(Pow2(m), m + 1);
    assert stream[..m + 1] == ToBits(Pow2(m), m + 1);
  }

  lemma PowerBelowNext(m: nat)
    ensures Pow2(m) < Pow2(m + 1)
  {
  }

  lemma StreamDecodes(m: nat, data: Pixels, bytes: seq<Byte>)
    requires 2 <= m <= 8 && data != [] && PixelsBelow(data, Pow2(m))
    requires FilledUp(StreamBits(bytes), CodeBits(EncodeNamed(m, data)))
    ensures DecodesTo(m, bytes, data) <==> !MeetsName(m, data)
  {
    var stream, bits := StreamBits(bytes), CodeBits(EncodeNamed(m, data));
    hide CodeBits, EncodeNamed, Read, PixelsBelow, Pow2, MeetsName, StreamBits;
    NamedDecodes(m, data, |stream| - |bits|);
  }

  /** Compresses a raster of pixels below 2^m. A decoder reads the pixels back from the bytes if and only
      if the compressor never matched a name every object inherits, and with up to six bits per pixel it
      never does. Neither `throw` on the way, of a code too long for its width or of a string entered
      twice, can happen. A missing first pixel counts as 0. The first code is the one that clears the table. */
  method GetLzwRaster(m: nat, data: Pixels) returns (bytes: seq<Byte>)
    requires 2 <= m <= 8 && PixelsBelow(data, Pow2(m))
    ensures data != [] ==> FilledUp(StreamBits(bytes), CodeBits(EncodeNamed(m, data)))
    ensures data != [] ==> (DecodesTo(m, bytes, data) <==> !MeetsName(m, data))
    ensures data != [] && m <= 6 ==> DecodesTo(m, bytes, data)
    ensures data == [] ==> DecodesTo(m, bytes, [0])
    ensures |StreamBits(bytes)| > m && FromBits(StreamBits(bytes)[..m + 1]) == Pow2(m)
  {
    hide *;
    PowPositive(m);
    OnePixelMeetsNone(m, 0);
    var px := if data == [] then [0] else data;
    var bitLength := m + 1;
    var table, ok := InitialLzwTable(m);
    if !ok { assert false; }
    var bitOut := new BitOutputStream();
    NoCodeBits();
    FirstFed(m, px);
    StartParts(m, px[0]);
    ok := WriteCode(bitOut, Code(ClearCode(m), bitLength), []);
    if !ok { assert false; }
    var s := [px[0]];
    var i := 1;
    ghost var e := Start(m, px[0]);
    while i < |px|
      invariant 0 < i <= |px| && PixelsBelow(px[..i], Pow2(m)) && e == FeedAllNamed(m, px[..i])
      invariant table.Holds(e.table) && fresh(table)
      invariant s == e.s && bitLength == e.width
      invariant fresh(bitOut) && bitOut.Valid() && bitOut.Contents() == CodeBits(e.codes)
    {
      NextCode(m, px[..i], e);
      FeedNext(m, px, i);
      var c := px[i];
      s, bitLength := FeedPixel(table, bitOut, s, bitLength, c, e);
      e := FeedNamed(e, c);
      i := i + 1;
    }
    assert px[..i] == px;
    NextCode(m, px, e);
    LastCodes(m, px, e);
    var code := table.IndexOf(s, e.table);
    ok := WriteCode(bitOut, Code(code, bitLength), e.codes);
    if !ok { assert false; }
    ok := WriteCode(bitOut, Code(EndCode(m), bitLength), e.codes + [Code(code, bitLength)]);
    if !ok { assert false; }
    bitOut.Flush();
    bytes := bitOut.out;
    FlushedIsFilled(bytes, CodeBits(EncodeNamed(m, px)));
    ClearsFirst(m, px, StreamBits(bytes));
    StreamDecodes(m, px, bytes);
    if m <= 6 { SixBitsMeetNoName(m, px); }
  }

  lemma NoCodeBits()
    ensures CodeBits([]) == []
  {
  }

  lemma StartParts(m: nat, first: nat)
    requires 2 <= m <= 8
    ensures Start(m, first).table == InitialTable(m) && Start(m, first).s == [first] && Start(m, first).width == m + 1
    ensures Start(m, first).codes == [] + [Code(ClearCode(m), m + 1)] && ClearCode(m) < Pow2(m + 1) && m + 1 <= MAX_WIDTH
  {
    InitialBounds(m);
  }

  lemma FlushedIsFilled(bytes: seq<Byte>, bits: seq<bool>)
    requires |bits| <= 8 * |bytes| < |bits| + 8
    requires StreamBits(bytes) == bits + Falses(8 * |bytes| - |bits|)
    ensures FilledUp(StreamBits(bytes), bits)
  {
    StreamLength(bytes);
  }
}
