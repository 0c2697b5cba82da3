/** The GIF encoder's LZW compressor, against the decoder of Appendix F of the GIF89a specification. Its string
    table answers for the strings it holds and nothing else; LzwNames says when the script's table does too. */
module Lzw {
  import opened Bits
  import opened BitOutput
  import opened GifDecoder
  import opened Exceptions

  /** The compressor between two pixels: its string table (code `i` stands for table[i]), the string
      matched so far, the current code width, and the codes already written. */
  datatype Encoder = Encoder(table: seq<Pixels>, s: Pixels, width: nat, codes: seq<Code>)

  const FULL: nat := 0xfff

  function IndexOf(table: seq<Pixels>, s: Pixels): (i: nat)
    requires s in table
    ensures i < |table| && table[i] == s
  {
    var n := |table| - 1;
    if table[n] == s then n else
      assert s in table[..n];
      IndexOf(table[..n], s)
  }

  function Start(m: nat, first: nat): Encoder {
    Encoder(InitialTable(m), [first], m + 1, [Code(ClearCode(m), m + 1)])
  }

  /** Writes the matched string and enters it, extended by `c`, unless the table is full. */
  function Emit(e: Encoder, c: nat): Encoder
    requires e.s in e.table
  {
    var codes := e.codes + [Code(IndexOf(e.table, e.s), e.width)];
    if |e.table| < FULL then
      Encoder(e.table + [e.s + [c]], [c], if |e.table| == Pow2(e.width) then e.width + 1 else e.width, codes)
    else
      Encoder(e.table, [c], e.width, codes)
  }

  function Feed(e: Encoder, c: nat): Encoder
    requires e.s in e.table
  {
    if e.s + [c] in e.table then e.(s := e.s + [c]) else Emit(e, c)
  }

  // ----- the encoder and the decoder stay in step -----

  /** The encoder is exactly one entry ahead of the decoder: the entry it will complete with the first
      pixel of the string it is matching. Once its table is full it stops, and the decoder catches up. */
  ghost predicate OneAhead(m: nat, e: Encoder, d: Decoder)
    requires e.s != []
  {
    && d.width == e.width <= MAX_WIDTH
    && match d.prev
       case None => e.table == d.table == InitialTable(m) && e.width == m + 1
       case Some(p) =>
         && p != [] && e.width > 0 && Pow2(e.width - 1) < |e.table| <= Pow2(e.width)
         && |e.table| <= FULL && |d.table| <= MAX_CODES
         && e.table <= d.table + [p + [e.s[0]]]
         && (|e.table| == |d.table| + 1 || (|e.table| == FULL && FULL <= |d.table|))
  }

  ghost predicate PixelsBelow(s: Pixels, bound: nat) {
    forall i :: 0 <= i < |s| ==> s[i] < bound
  }

  /** The invariant of the compressor after it has read the pixels `seen`. */
  ghost predicate Good(m: nat, e: Encoder, seen: Pixels) {
    && 2 <= m <= 8 && PixelsBelow(seen, Pow2(m))
    && e.s != [] && e.s in e.table && InitialTable(m) <= e.table
    && (forall i :: 0 <= i < |e.table| ==> e.table[i] != [])
    && InStep(m, e.codes)
    && var d := After(m, e.codes);
       d.status == Running && d.out + e.s == seen && OneAhead(m, e, d)
  }

  lemma SmallPowers()
    ensures Pow2(2) == 4 && Pow2(8) == 256 && Pow2(11) == 2048 && Pow2(12) == 4096
  {
  }

  lemma InitialBounds(m: nat)
    requires 2 <= m <= 8
    ensures 4 <= Pow2(m) <= 256 && Pow2(m + 1) == 2 * Pow2(m)
  {
    SmallPowers();
    Pow2Monotone(2, m);
    Pow2Monotone(m, 8);
  }

  lemma StartIsGood(m: nat, first: nat)
    requires 2 <= m <= 8 && first < Pow2(m)
    ensures Good(m, Start(m, first), [first])
  {
    InitialBounds(m);
    var c := Code(ClearCode(m), m + 1);
    assert [c][..0] == [];
    assert After(m, [c]) == Step(m, InitialDecoder(m), ClearCode(m));
    assert InitialTable(m)[first] == [first];
  }

  /** The code of the matched string is below the size of the table, hence fits the current width, and
      is neither the clear nor the end code. */
  lemma CodeFits(m: nat, e: Encoder, seen: Pixels)
    requires Good(m, e, seen)
    ensures var c := IndexOf(e.table, e.s);
      c < Pow2(e.width) && e.width > 0 && c != ClearCode(m) && c != EndCode(m)
  {
    InitialBounds(m);
    var c := IndexOf(e.table, e.s);
    hide InStep, After, IndexOf;
    var d := After(m, e.codes);
    assert e.s[0] == seen[|d.out|];
    assert InitialTable(m)[ClearCode(m)] == [ClearCode(m)] && InitialTable(m)[EndCode(m)] == [EndCode(m)];
  }

  /** The decoder recovers the written string, even when it is the entry it has not completed yet. */
  lemma StepRecovers(m: nat, e: Encoder, seen: Pixels, c: nat)
    requires Good(m, e, seen) && c == IndexOf(e.table, e.s)
    ensures var d := After(m, e.codes); var d' := Step(m, d, c);
      && d'.status == Running && d'.out == seen && d'.prev == Some(e.s)
      && d' == (match d.prev
                case None => d.(prev := Some(e.s), out := seen)
                case Some(p) => Grown(d, p + [e.s[0]]).(prev := Some(e.s), out := seen))
  {
    CodeFits(m, e, seen);
    var d := After(m, e.codes);
    hide InStep, After, IndexOf, Grown, ClearCode, EndCode, InitialTable;
    match d.prev
    case None =>
    case Some(p) =>
      if c < |d.table| {
        assert (d.table + [p + [e.s[0]]])[c] == e.table[c] == e.s;
      } else {
        assert c == |d.table|;
        assert (d.table + [p + [e.s[0]]])[c] == e.table[c] == e.s;
        assert e.s[0] == p[0];
      }
  }

  lemma EmitKeepsOneAhead(m: nat, e: Encoder, d: Decoder, c: nat, d': Decoder)
    requires 2 <= m <= 8 && e.s != [] && e.s in e.table && OneAhead(m, e, d)
    requires d' == (match d.prev
                    case None => d.(prev := Some(e.s), out := d'.out)
                    case Some(p) => Grown(d, p + [e.s[0]]).(prev := Some(e.s), out := d'.out))
    ensures OneAhead(m, Emit(e, c), d')
  {
    hide IndexOf;
    InitialBounds(m);
    SmallPowers();
    var e' := Emit(e, c);
    hide InitialTable;
    match d.prev
    case None =>
      assert e'.table == d'.table + [e.s + [c]];
    case Some(p) =>
      WidthBelowFull(e.width, |e.table|);
      var t := d.table + [p + [e.s[0]]];
      if |e.table| == |d.table| + 1 {
        assert e.table == t == d'.table;
        if |e.table| < FULL {
          assert e'.table == d'.table + [e.s + [c]];
        }
      } else {
        assert e.table <= d.table;
      }
  }

  /** Tables of at most 4095 entries need at most 12 bits, and exactly 12 when full. */
  lemma WidthBelowFull(width: nat, size: nat)
    requires 0 < width <= MAX_WIDTH && Pow2(width - 1) < size <= Pow2(width) && size <= FULL
    ensures size == Pow2(width) ==> width < MAX_WIDTH
    ensures size == FULL ==> width == MAX_WIDTH
  {
    SmallPowers();
    if width < MAX_WIDTH { Pow2Monotone(width, 11); }
  }

  lemma MatchIsGood(m: nat, e: Encoder, seen: Pixels, c: nat)
    requires Good(m, e, seen) && c < Pow2(m) && e.s + [c] in e.table
    ensures Good(m, e.(s := e.s + [c]), seen + [c])
  {
    hide InStep, After, InitialTable, Pow2;
    var d := After(m, e.codes);
    assert d.out + (e.s + [c]) == d.out + e.s + [c];
    assert (e.s + [c])[0] == e.s[0];
  }

  /** The table part of the invariant after writing a code. */
  lemma EmitKeepsTable(m: nat, e: Encoder, c: nat)
    requires InitialTable(m) <= e.table && c < Pow2(m) && e.s in e.table
    requires forall i :: 0 <= i < |e.table| ==> e.table[i] != []
    ensures var e' := Emit(e, c);
      && e'.s == [c] && e'.s in e'.table && InitialTable(m) <= e'.table
      && (forall i :: 0 <= i < |e'.table| ==> e'.table[i] != [])
      && e'.codes == e.codes + [Code(IndexOf(e.table, e.s), e.width)]
  {
    assert e.table[c] == InitialTable(m)[c] == [c];
    hide IndexOf, InitialTable;
    assert Emit(e, c).table[c] == [c];
  }

  lemma GoodParts(m: nat, e: Encoder, seen: Pixels)
    requires Good(m, e, seen)
    ensures 2 <= m <= 8 && PixelsBelow(seen, Pow2(m)) && e.s != [] && e.s in e.table && InitialTable(m) <= e.table
    ensures forall i :: 0 <= i < |e.table| ==> e.table[i] != []
    ensures InStep(m, e.codes) && After(m, e.codes).status == Running
    ensures After(m, e.codes).width == e.width && OneAhead(m, e, After(m, e.codes))
  {
    hide InStep, After, InitialTable, Pow2;
  }

  lemma GoodFromParts(m: nat, e: Encoder, seen: Pixels, d: Decoder)
    requires 2 <= m <= 8 && PixelsBelow(seen, Pow2(m)) && e.s != [] && e.s in e.table && InitialTable(m) <= e.table
    requires forall i :: 0 <= i < |e.table| ==> e.table[i] != []
    requires InStep(m, e.codes) && d == After(m, e.codes) && d.status == Running
    requires d.out + e.s == seen && OneAhead(m, e, d)
    ensures Good(m, e, seen)
  {
    hide InStep, After, InitialTable, Pow2, OneAhead;
  }

  lemma EmitIsGood(m: nat, e: Encoder, seen: Pixels, c: nat)
    requires Good(m, e, seen) && c < Pow2(m)
    ensures Good(m, Emit(e, c), seen + [c])
  {
    hide *;
    GoodParts(m, e, seen);
    var d := After(m, e.codes);
    var code := Code(IndexOf(e.table, e.s), e.width);
    CodeFits(m, e, seen);
    StepRecovers(m, e, seen, code.value);
    var d' := Step(m, d, code.value);
    EmitKeepsOneAhead(m, e, d, c, d');
    SnocCode(m, e.codes, code);
    EmitKeepsTable(m, e, c);
    PixelsSnoc(seen, c, Pow2(m));
    GoodFromParts(m, Emit(e, c), seen + [c], d');
  }

  lemma PixelsSnoc(s: Pixels, c: nat, bound: nat)
    requires PixelsBelow(s, bound) && c < bound
    ensures PixelsBelow(s + [c], bound)
  {
  }

  lemma WidthsAgree(m: nat, e: Encoder, d: Decoder)
    requires e.s != [] && OneAhead(m, e, d)
    ensures d.width == e.width
  {
  }

  lemma FeedIsGood(m: nat, e: Encoder, seen: Pixels, c: nat)
    requires Good(m, e, seen) && c < Pow2(m)
    ensures Good(m, Feed(e, c), seen + [c])
  {
    hide Good, Emit;
    GoodHasString(m, e, seen);
    if e.s + [c] in e.table {
      MatchIsGood(m, e, seen, c);
    } else {
      EmitIsGood(m, e, seen, c);
    }
  }

  lemma GoodHasString(m: nat, e: Encoder, seen: Pixels)
    requires Good(m, e, seen)
    ensures e.s in e.table
  {
  }

  lemma SnocCode(m: nat, cs: seq<Code>, c: Code)
    requires InStep(m, cs) && After(m, cs).status == Running && After(m, cs).width == c.width > 0 && c.value < Pow2(c.width)
    ensures InStep(m, cs + [c]) && After(m, cs + [c]) == Step(m, After(m, cs), c.value)
  {
    hide Step;
    assert (cs + [c])[..|cs|] == cs;
  }

  // ----- a whole raster -----

  /** The encoder after all of `data`. */
  ghost function FeedAll(m: nat, data: Pixels): (e: Encoder)
    requires 2 <= m <= 8 && data != [] && PixelsBelow(data, Pow2(m))
    ensures Good(m, e, data)
  {
    hide Good, Feed, Start, Pow2;
    var n := |data| - 1;
    if n == 0 then
      assert data == [data[0]];
      StartIsGood(m, data[0]);
      Start(m, data[0])
    else
      assert data == data[..n] + [data[n]];
      FeedIsGood(m, FeedAll(m, data[..n]), data[..n], data[n]);
      GoodHasString(m, FeedAll(m, data[..n]), data[..n]);
      Feed(FeedAll(m, data[..n]), data[n])
  }

  /** All codes up to the one of the last matched string. */
  ghost function DataCodes(m: nat, data: Pixels): seq<Code>
    requires 2 <= m <= 8 && data != [] && PixelsBelow(data, Pow2(m))
  {
    var e := FeedAll(m, data);
    e.codes + [Code(IndexOf(e.table, e.s), e.width)]
  }

  /** All codes of a raster, the end code last, in the width of the code before it. */
  ghost function Encode(m: nat, data: Pixels): seq<Code>
    requires 2 <= m <= 8 && data != [] && PixelsBelow(data, Pow2(m))
  {
    DataCodes(m, data) + [Code(EndCode(m), FeedAll(m, data).width)]
  }

  /** The decoder follows all data codes at the width they are written in and recovers the raster. */
  lemma DataCodesDecode(m: nat, data: Pixels)
    requires 2 <= m <= 8 && data != [] && PixelsBelow(data, Pow2(m))
    ensures InStep(m, DataCodes(m, data))
    ensures After(m, DataCodes(m, data)).status == Running && After(m, DataCodes(m, data)).out == data
  {
    var e := FeedAll(m, data);
    var code := Code(IndexOf(e.table, e.s), e.width);
    hide InStep, After, InitialTable, OneAhead, Step, IndexOf, Pow2, Grown, FeedAll;
    CodeFits(m, e, data);
    StepRecovers(m, e, data, code.value);
    WidthsAgree(m, e, After(m, e.codes));
    SnocCode(m, e.codes, code);
  }

  /** The width the decoder expects next: one more than the encoder's exactly when the encoder's table
      has just filled its width, because the encoder widens only when it adds an entry. */
  lemma WidthAtEnd(m: nat, data: Pixels)
    requires 2 <= m <= 8 && data != [] && PixelsBelow(data, Pow2(m))
    ensures var e := FeedAll(m, data);
      After(m, DataCodes(m, data)).width == if |e.table| == Pow2(e.width) then e.width + 1 else e.width
  {
    var e := FeedAll(m, data);
    var d := After(m, e.codes);
    var code := Code(IndexOf(e.table, e.s), e.width);
    hide InStep, After, InitialTable, Step, IndexOf, FeedAll, Good, OneAhead, Pow2, Grown;
    GoodParts(m, e, data);
    CodeFits(m, e, data);
    StepRecovers(m, e, data, code.value);
    SnocCode(m, e.codes, code);
    WidthAfter(m, e, d, Step(m, d, code.value));
  }

  lemma WidthAfter(m: nat, e: Encoder, d: Decoder, d': Decoder)
    requires 2 <= m <= 8 && e.s != [] && OneAhead(m, e, d)
    requires d' == (match d.prev
                    case None => d.(prev := Some(e.s), out := d'.out)
                    case Some(p) => Grown(d, p + [e.s[0]]).(prev := Some(e.s), out := d'.out))
    ensures d'.width == if |e.table| == Pow2(e.width) then e.width + 1 else e.width
  {
    InitialBounds(m);
    SmallPowers();
    if d.prev.Some? {
      WidthBelowFull(e.width, |e.table|);
    }
  }

  /** The end code is written in the width the decoder expects if and only if the table size is not a
      full power of two at the end. */
  lemma EndCodeInStep(m: nat, data: Pixels)
    requires 2 <= m <= 8 && data != [] && PixelsBelow(data, Pow2(m))
    ensures InStep(m, Encode(m, data)) <==> |FeedAll(m, data).table| != Pow2(FeedAll(m, data).width)
  {
    var e := FeedAll(m, data);
    EndFits(m, e, data);
    var front, c := DataCodes(m, data), Code(EndCode(m), e.width);
    hide After, FeedAll, DataCodes;
    DataCodesDecode(m, data);
    WidthAtEnd(m, data);
    assert (front + [c])[..|front|] == front;
  }

  /** The end code really can be out of step: for these three pixels it is written in 3 bits while a
      decoder, whose table has just reached 8 entries, expects 4. */
  lemma EndCodeOutOfStep()
    ensures PixelsBelow([0, 1, 0], Pow2(2)) && !InStep(2, Encode(2, [0, 1, 0]))
  {
    hide *;
    ThreePixels(2);
    EndCodeInStep(2, [0, 1, 0]);
  }

  lemma ThreePixels(m: nat)
    requires m == 2
    ensures PixelsBelow([0, 1, 0], Pow2(m))
    ensures var e := FeedAll(m, [0, 1, 0]); |e.table| == Pow2(e.width)
  {
    hide *;
    SmallPowers();
    FirstEmit(m);
    var e1 := Start(m, 0);
    var e2 := Emit(e1, 1);
    SecondEmit(m, e2);
    OnePixel(m, 0);
    assert [0] + [1] == [0, 1] && [0, 1] + [0] == [0, 1, 0];
    FeedOnce(m, [0], 1, e1);
    FeedOnce(m, [0, 1], 0, e2);
  }

  lemma OnePixel(m: nat, c: nat)
    requires 2 <= m <= 8 && c < Pow2(m)
    ensures PixelsBelow([c], Pow2(m)) && FeedAll(m, [c]) == Start(m, c)
  {
    hide Good, Start, Pow2;
  }

  /** After the first code the table holds seven strings, the last of them [0, 1]. */
  lemma FirstEmit(m: nat)
    requires m == 2
    ensures var e := Start(m, 0); e.s in e.table && e.s + [1] !in e.table
    ensures var e := Emit(Start(m, 0), 1);
      e.s == [1] && e.width == 3 && e.table == InitialTable(m) + [[0, 1]] && |e.table| == 7
  {
    SmallPowers();
    assert InitialTable(m)[0] == [0];
    assert [0] + [1] == [0, 1];
  }

  /** After the second it holds eight, which is all that three bits can number. */
  lemma SecondEmit(m: nat, e: Encoder)
    requires m == 2 && e.s == [1] && e.width == 3 && e.table == InitialTable(m) + [[0, 1]] && |e.table| == 7
    ensures e.s in e.table && e.s + [0] !in e.table
    ensures |Emit(e, 0).table| == 8 == Pow2(Emit(e, 0).width)
  {
    SmallPowers();
    assert Pow2(3) == 8;
    assert InitialTable(m)[1] == [1] && e.table[1] == [1];
    assert [1] + [0] == [1, 0];
  }

  /** A pixel whose extension of the matched string is new writes a code. */
  lemma FeedOnce(m: nat, seen: Pixels, c: nat, e: Encoder)
    requires 2 <= m <= 8 && seen != [] && PixelsBelow(seen, Pow2(m)) && c < Pow2(m)
    requires e == FeedAll(m, seen) && e.s + [c] !in e.table
    ensures PixelsBelow(seen + [c], Pow2(m)) && FeedAll(m, seen + [c]) == Emit(e, c)
  {
    hide Good, Emit;
    PixelsSnoc(seen, c, Pow2(m));
    assert (seen + [c])[..|seen|] == seen;
  }

  lemma EndFits(m: nat, e: Encoder, seen: Pixels)
    requires Good(m, e, seen)
    ensures EndCode(m) < Pow2(e.width) && 0 < e.width <= MAX_WIDTH
  {
    InitialBounds(m);
    hide InStep, After, InitialTable;
  }

  /** Whatever the decoder makes of the end code, at most seven zero bits of filling later it stops
      with exactly the raster. */
  lemma RasterDecodes(m: nat, data: Pixels, pad: nat)
    requires 2 <= m <= 8 && data != [] && PixelsBelow(data, Pow2(m)) && pad < 8
    ensures var d := Read(m, InitialDecoder(m), CodeBits(Encode(m, data)) + Falses(pad));
      d.status != Failed && d.out == data
  {
    var e := FeedAll(m, data);
    EndFits(m, e, data);
    var front, c := DataCodes(m, data), Code(EndCode(m), e.width);
    var b, rest := ToBits(c.value, c.width), Falses(pad);
    DataCodesDecode(m, data);
    WidthAtEnd(m, data);
    assert (front + [c])[..|front|] == front;
    assert CodeBits(Encode(m, data)) == CodeBits(front) + b;
    hide After, FeedAll, DataCodes, InStep, Encode, CodeBits, Pow2, ToBits, EndCode;
    assert CodeBits(front) + b + rest == CodeBits(front) + (b + rest);
    ReadInStep(m, front, b + rest);
    EndIsRead(m, After(m, front), c, pad);
  }

  lemma EndIsRead(m: nat, d: Decoder, c: Code, pad: nat)
    requires c.value == EndCode(m) < Pow2(c.width) && c.width > 0 && pad < 8
    requires d.status == Running && (d.width == c.width || d.width == c.width + 1)
    ensures var d' := Read(m, d, ToBits(c.value, c.width) + Falses(pad)); d'.status != Failed && d'.out == d.out
  {
    var b, rest := ToBits(c.value, c.width), Falses(pad);
    if d.width == c.width {
      ReadOne(m, d, c, rest);
      hide Read;
      ReadEnded(m, Step(m, d, c.value), rest);
    } else if pad > 0 {
      SmallBits(c.value, c.width, c.width + 1);
      Pow2Monotone(c.width, c.width + 1);
      var wide := Code(c.value, c.width + 1);
      assert rest == Falses(1) + Falses(pad - 1);
      assert b + rest == ToBits(c.value, c.width + 1) + Falses(pad - 1);
      ReadOne(m, d, wide, Falses(pad - 1));
      hide Read;
      ReadEnded(m, Step(m, d, c.value), Falses(pad - 1));
    }
  }

  lemma ReadEnded(m: nat, d: Decoder, bits: seq<bool>)
    requires d.status != Running
    ensures Read(m, d, bits) == d
  {
  }
}
