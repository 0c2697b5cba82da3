/** The script keeps the compressor's string table in a plain object, which also answers for the names
    every object inherits. What the compressor does then, and when that matters. */
module LzwNames {
  import opened Bits
  import opened BitOutput
  import opened GifDecoder
  import opened Lzw

  function Spelled(name: string): (s: Pixels)
    ensures |s| == |name|
  {
    seq<nat>(|name|, i requires 0 <= i < |name| => name[i] as int)
  }

  /** The properties of `Object.prototype` (ECMA-262, section 20.1.3 and annex B.2.2). */
  predicate IsInherited(key: Pixels) {
    || key == Spelled("constructor") || key == Spelled("hasOwnProperty") || key == Spelled("isPrototypeOf")
    || key == Spelled("propertyIsEnumerable") || key == Spelled("toLocaleString") || key == Spelled("toString")
    || key == Spelled("valueOf") || key == Spelled("__proto__")
    || key == Spelled("__defineGetter__") || key == Spelled("__defineSetter__")
    || key == Spelled("__lookupGetter__") || key == Spelled("__lookupSetter__")
  }

  /** No name begins with a value below 64, and none is a name with one more letter. */
  lemma InheritedShape(key: Pixels, c: nat)
    requires IsInherited(key)
    ensures |key| >= 7 && key[0] >= 64 && !IsInherited(key + [c])
  {
    assert (key + [c])[0] == key[0];
  }

  // ----- the compressor with such a table -----

  /** What the table gives for a string that it contains or inherits. An inherited member is not a number
      and is written as 0. */
  function NumberOf(table: seq<Pixels>, s: Pixels): nat {
    if s in table then IndexOf(table, s) else 0
  }

  function EmitNamed(e: Encoder, c: nat): Encoder {
    var codes := e.codes + [Code(NumberOf(e.table, e.s), e.width)];
    if |e.table| < FULL then
      Encoder(e.table + [e.s + [c]], [c], if |e.table| == Pow2(e.width) then e.width + 1 else e.width, codes)
    else
      Encoder(e.table, [c], e.width, codes)
  }

  function FeedNamed(e: Encoder, c: nat): Encoder {
    if e.s + [c] in e.table || IsInherited(e.s + [c]) then e.(s := e.s + [c]) else EmitNamed(e, c)
  }

  ghost predicate NoNames(table: seq<Pixels>) {
    forall i :: 0 <= i < |table| ==> !IsInherited(table[i])
  }

  /** What holds even after an inherited name was matched: codes fit their width. */
  ghost predicate Safe(m: nat, e: Encoder) {
    && 2 <= m <= 8 && InitialTable(m) <= e.table && NoNames(e.table)
    && 0 < e.width <= MAX_WIDTH && |e.table| <= Pow2(e.width) && |e.table| <= FULL
    && (e.s in e.table || IsInherited(e.s))
  }

  lemma SingleInTable(m: nat, table: seq<Pixels>, c: nat)
    requires InitialTable(m) <= table && c < Pow2(m)
    ensures [c] in table
  {
    assert table[c] == InitialTable(m)[c] == [c];
  }

  lemma StartIsSafe(m: nat, first: nat)
    requires 2 <= m <= 8 && first < Pow2(m)
    ensures Safe(m, Start(m, first))
  {
    hide IsInherited;
    InitialBounds(m);
    SmallPowers();
    SingleInTable(m, InitialTable(m), first);
    forall i | 0 <= i < |InitialTable(m)| ensures !IsInherited(InitialTable(m)[i]) {
      if IsInherited(InitialTable(m)[i]) { InheritedShape(InitialTable(m)[i], 0); }
    }
  }

  lemma EmitIsSafe(m: nat, e: Encoder, c: nat)
    requires Safe(m, e) && c < Pow2(m) && !IsInherited(e.s + [c])
    ensures Safe(m, EmitNamed(e, c))
  {
    hide IsInherited, InitialTable, NumberOf;
    SmallPowers();
    if |e.table| == Pow2(e.width) && e.width == MAX_WIDTH { assert false; }
    var t := EmitNamed(e, c);
    SingleInTable(m, t.table, c);
    assert t.width == e.width + 1 ==> Pow2(t.width) == 2 * Pow2(e.width);
  }

  lemma FeedIsSafe(m: nat, e: Encoder, c: nat)
    requires Safe(m, e) && c < Pow2(m)
    ensures Safe(m, FeedNamed(e, c))
  {
    hide IsInherited, InitialTable, EmitNamed, NoNames;
    if !(e.s + [c] in e.table || IsInherited(e.s + [c])) {
      EmitIsSafe(m, e, c);
    }
  }

  /** The code of the matched string fits its width, and so does the end code. */
  lemma NumberFits(m: nat, e: Encoder)
    requires Safe(m, e)
    ensures NumberOf(e.table, e.s) < Pow2(e.width) && EndCode(m) < Pow2(e.width)
  {
    hide IsInherited, NoNames;
  }

  ghost function FeedAllNamed(m: nat, data: Pixels): (e: Encoder)
    requires 2 <= m <= 8 && data != [] && PixelsBelow(data, Pow2(m))
    ensures Safe(m, e)
  {
    hide Safe, FeedNamed, Start, Pow2;
    var n := |data| - 1;
    if n == 0 then
      StartIsSafe(m, data[0]);
      Start(m, data[0])
    else
      FeedIsSafe(m, FeedAllNamed(m, data[..n]), data[n]);
      FeedNamed(FeedAllNamed(m, data[..n]), data[n])
  }

  ghost function EncodeNamed(m: nat, data: Pixels): seq<Code>
    requires 2 <= m <= 8 && data != [] && PixelsBelow(data, Pow2(m))
  {
    var e := FeedAllNamed(m, data);
    e.codes + [Code(NumberOf(e.table, e.s), e.width)] + [Code(EndCode(m), e.width)]
  }

  // ----- when it matters -----

  /** Some string the compressor matches on the way is an inherited name. */
  ghost predicate MeetsName(m: nat, data: Pixels)
    requires 2 <= m <= 8 && PixelsBelow(data, Pow2(m))
  {
    exists i :: 0 < i <= |data| && IsInherited(FeedAllNamed(m, data[..i]).s)
  }

  lemma MeetsNameFront(m: nat, data: Pixels, n: nat)
    requires 2 <= m <= 8 && PixelsBelow(data, Pow2(m)) && n <= |data| && !MeetsName(m, data)
    ensures !MeetsName(m, data[..n])
  {
    hide FeedAllNamed, IsInherited;
    forall i | 0 < i <= n ensures !IsInherited(FeedAllNamed(m, data[..n][..i]).s) {
      assert data[..n][..i] == data[..i];
    }
  }

  /** Until then it is the compressor of module Lzw. */
  lemma {:induction false} SameUntilName(m: nat, data: Pixels)
    requires 2 <= m <= 8 && data != [] && PixelsBelow(data, Pow2(m)) && !MeetsName(m, data)
    ensures FeedAllNamed(m, data) == FeedAll(m, data)
    decreases |data|
  {
    var n := |data| - 1;
    hide IsInherited, InitialTable, Good, Pow2, NoNames;
    assert data[..|data|] == data;
    if n > 0 {
      MeetsNameFront(m, data, n);
      SameUntilName(m, data[..n]);
      GoodHasString(m, FeedAll(m, data[..n]), data[..n]);
    }
  }

  lemma SameCodes(m: nat, data: Pixels)
    requires 2 <= m <= 8 && data != [] && PixelsBelow(data, Pow2(m)) && !MeetsName(m, data)
    ensures EncodeNamed(m, data) == Encode(m, data)
  {
    hide FeedAll, FeedAllNamed, MeetsName, IndexOf, PixelsBelow, Pow2, Good;
    SameUntilName(m, data);
    GoodHasString(m, FeedAll(m, data), data);
  }

  /** Entries are added one pixel longer than entries that are there. */
  ghost predicate PrefixClosed(table: seq<Pixels>) {
    forall i :: 0 <= i < |table| && |table[i]| > 1 ==> table[i][..|table[i]| - 1] in table
  }

  lemma EmitKeepsClosed(e: Encoder, c: nat)
    requires PrefixClosed(e.table) && e.s in e.table
    ensures PrefixClosed(Emit(e, c).table)
  {
    hide IndexOf;
    var t := Emit(e, c).table;
    assert forall s :: s in e.table ==> s in t;
    forall i | 0 <= i < |t| && |t[i]| > 1 ensures t[i][..|t[i]| - 1] in t {
      if i < |e.table| {
        assert t[i] == e.table[i];
      } else {
        assert t[i][..|t[i]| - 1] == e.s;
      }
    }
  }

  lemma {:induction false} TableIsClosed(m: nat, data: Pixels)
    requires 2 <= m <= 8 && data != [] && PixelsBelow(data, Pow2(m))
    ensures PrefixClosed(FeedAll(m, data).table)
    decreases |data|
  {
    hide PrefixClosed, Emit, Pow2, Good;
    var n := |data| - 1;
    if n > 0 {
      TableIsClosed(m, data[..n]);
      GoodHasString(m, FeedAll(m, data[..n]), data[..n]);
      EmitKeepsClosed(FeedAll(m, data[..n]), data[n]);
    } else {
      InitialIsClosed(m);
    }
  }

  lemma InitialIsClosed(m: nat)
    ensures PrefixClosed(InitialTable(m))
  {
  }

  /** The first time a matched string is an inherited name. */
  lemma {:induction false} FirstName(m: nat, data: Pixels) returns (i: nat)
    requires 2 <= m <= 8 && PixelsBelow(data, Pow2(m)) && MeetsName(m, data)
    ensures 1 < i <= |data| && IsInherited(FeedAllNamed(m, data[..i]).s) && !MeetsName(m, data[..i - 1])
    decreases |data|
  {
    hide IsInherited, Pow2, Safe, FeedNamed;
    var n := |data| - 1;
    if MeetsName(m, data[..n]) {
      i := FirstName(m, data[..n]);
      assert data[..n][..i] == data[..i] && data[..n][..i - 1] == data[..i - 1];
    } else {
      forall k | 0 < k <= n ensures !IsInherited(FeedAllNamed(m, data[..k]).s) {
        assert data[..n][..k] == data[..k];
      }
      FirstIsNoName(m, data);
      i := |data|;
    }
  }

  lemma FirstIsNoName(m: nat, data: Pixels)
    requires 2 <= m <= 8 && PixelsBelow(data, Pow2(m)) && data != []
    ensures !IsInherited(FeedAllNamed(m, data[..1]).s)
  {
    hide Safe, Pow2, FeedNamed;
  }

  lemma {:induction false} CodesGrow(m: nat, data: Pixels, n: nat)
    requires 2 <= m <= 8 && PixelsBelow(data, Pow2(m)) && 0 < n <= |data|
    ensures FeedAllNamed(m, data[..n]).codes <= FeedAllNamed(m, data).codes
    decreases |data|
  {
    hide IsInherited, Pow2, Safe, NumberOf;
    if n == |data| {
      assert data[..n] == data;
    } else {
      CodesGrow(m, data[..|data| - 1], n);
      assert data[..|data| - 1][..n] == data[..n];
    }
  }

  /** A matched name is written as 0, whether the pixels end with it or go on. */
  lemma NameIsWrittenAsZero(m: nat, data: Pixels, i: nat)
    requires 2 <= m <= 8 && PixelsBelow(data, Pow2(m)) && 1 < i <= |data|
    requires IsInherited(FeedAllNamed(m, data[..i]).s) && !MeetsName(m, data[..i - 1])
    ensures var e := FeedAll(m, data[..i - 1]);
      && IsInherited(e.s + [data[i - 1]])
      && e.codes + [Code(0, e.width)] <= EncodeNamed(m, data)
  {
    hide IsInherited, Pow2, Good, InitialTable, IndexOf, FeedAll, FeedAllNamed, MeetsName, EndCode;
    var e := FeedAll(m, data[..i - 1]);
    SameUntilName(m, data[..i - 1]);
    TableIsClosed(m, data[..i - 1]);
    var b := FeedAllNamed(m, data[..i]);
    OneMore(m, data, i - 1);
    GoodHasString(m, e, data[..i - 1]);
    GoodParts(m, e, data[..i - 1]);
    NamedStep(e, data[i - 1], b);
    if i < |data| {
      OneMore(m, data, i);
      NameThenPixel(e, b, data[i]);
      CodesGrow(m, data, i + 1);
    } else {
      assert data[..i] == data;
    }
  }

  lemma OneMore(m: nat, data: Pixels, n: nat)
    requires 2 <= m <= 8 && PixelsBelow(data, Pow2(m)) && 0 < n < |data|
    ensures FeedAllNamed(m, data[..n + 1]) == FeedNamed(FeedAllNamed(m, data[..n]), data[n])
  {
    hide FeedNamed, Safe, Pow2;
    assert data[..n + 1][..n] == data[..n];
  }

  lemma NamedStep(e: Encoder, c: nat, b: Encoder)
    requires b == FeedNamed(e, c) && IsInherited(b.s) && e.s != []
    requires NoNames(b.table)
    ensures b == e.(s := e.s + [c]) && NumberOf(b.table, b.s) == 0
  {
    InheritedShape(b.s, 0);
    hide IsInherited;
  }

  lemma NameThenPixel(e: Encoder, b: Encoder, c: nat)
    requires PrefixClosed(e.table) && b.table == e.table && b.codes == e.codes && b.width == e.width
    requires IsInherited(b.s) && NoNames(b.table)
    ensures FeedNamed(b, c).codes == e.codes + [Code(0, e.width)]
  {
    InheritedShape(b.s, c);
    hide IsInherited;
    ClosedBelow(e.table, b.s, c);
  }

  lemma ClosedBelow(table: seq<Pixels>, s: Pixels, c: nat)
    requires PrefixClosed(table) && s != []
    ensures s + [c] in table ==> s in table
  {
    if s + [c] in table {
      var i :| 0 <= i < |table| && table[i] == s + [c];
      assert table[i][..|table[i]| - 1] == s;
    }
  }

  // ----- what a decoder makes of it -----

  /** A decoder never takes back a pixel. */
  lemma {:induction false} ReadExtends(m: nat, d: Decoder, bits: seq<bool>)
    ensures d.out <= Read(m, d, bits).out
    decreases |bits|
  {
    hide FromBits;
    if !(d.status != Running || d.width == 0 || |bits| < d.width) {
      StepExtends(m, d, FromBits(bits[..d.width]));
      hide Step;
      ReadExtends(m, Step(m, d, FromBits(bits[..d.width])), bits[d.width..]);
    }
  }

  lemma StepExtends(m: nat, d: Decoder, code: nat)
    ensures d.out <= Step(m, d, code).out
  {
    hide InitialTable;
  }

  /** Code 0 is the pixel 0. */
  lemma ZeroIsPixel(m: nat, d: Decoder)
    requires 2 <= m <= 8 && d.table != [] && d.table[0] == [0]
    ensures Step(m, d, 0).out == d.out + [0]
  {
    InitialBounds(m);
  }

  lemma {:induction false} CodeBitsPrefix(cs: seq<Code>, all: seq<Code>) returns (rest: seq<bool>)
    requires cs <= all
    ensures CodeBits(all) == CodeBits(cs) + rest
    decreases |all|
  {
    if |cs| == |all| {
      assert cs == all;
      rest := [];
    } else {
      rest := CodeBitsPrefix(cs, all[..|all| - 1]);
      rest := rest + ToBits(all[|all| - 1].value, all[|all| - 1].width);
    }
  }

  /** What the decoder has when the encoder holds a matched string. */
  lemma DecoderBehind(m: nat, e: Encoder, seen: Pixels)
    requires Good(m, e, seen)
    ensures var d := After(m, e.codes);
      && d.table != [] && d.table[0] == [0] && d.out + e.s == seen && e.s != [] && d.status == Running
      && d.width == e.width && 0 < e.width && InStep(m, e.codes)
  {
    hide InStep, After;
    InitialBounds(m);
    var d := After(m, e.codes);
    assert e.table[0] == InitialTable(m)[0] == [0];
    if d.prev.Some? {
      assert (d.table + [d.prev.value + [e.s[0]]])[0] == e.table[0];
    }
  }

  /** A stream that begins with a name written as 0 decodes to other pixels: where the name began there
      is a 0 instead of a letter. */
  lemma NameIsMisread(m: nat, data: Pixels, n: nat, e: Encoder, stream: seq<bool>, rest: seq<bool>)
    requires n < |data| && Good(m, e, data[..n]) && IsInherited(e.s + [data[n]])
    requires stream == CodeBits(e.codes + [Code(0, e.width)]) + rest
    ensures Read(m, InitialDecoder(m), stream).out != data
  {
    var d := After(m, e.codes);
    var cs := e.codes + [Code(0, e.width)];
    DecoderBehind(m, e, data[..n]);
    ZeroIsPixel(m, d);
    InheritedShape(e.s + [data[n]], 0);
    PowPositive(e.width);
    hide Good, Read, Step, InitialTable, IsInherited, CodeBits, OneAhead, Pow2;
    SnocCode(m, e.codes, Code(0, e.width));
    hide InStep, After;
    ReadInStep(m, cs, rest);
    ReadExtends(m, After(m, cs), rest);
    var out := Read(m, InitialDecoder(m), stream).out;
    assert out[|d.out|] == 0;
    assert data[..n][|d.out|] == e.s[0];
  }

  lemma {:induction false} PowPositive(m: nat)
    ensures Pow2(m) > 0
  {
    if m > 0 { PowPositive(m - 1); }
  }

  /** For every raster: the pixels come back if and only if no matched string was an inherited name. */
  lemma NamedDecodes(m: nat, data: Pixels, pad: nat)
    requires 2 <= m <= 8 && data != [] && PixelsBelow(data, Pow2(m)) && pad < 8
    ensures var d := Read(m, InitialDecoder(m), CodeBits(EncodeNamed(m, data)) + Falses(pad));
      (d.status != Failed && d.out == data) <==> !MeetsName(m, data)
  {
    hide Read, CodeBits, EncodeNamed, Encode, FeedAll, FeedAllNamed, IsInherited, Pow2, InitialDecoder, Good;
    if MeetsName(m, data) {
      var i := FirstName(m, data);
      hide MeetsName;
      NameIsWrittenAsZero(m, data, i);
      var e := FeedAll(m, data[..i - 1]);
      var rest := CodeBitsPrefix(e.codes + [Code(0, e.width)], EncodeNamed(m, data));
      assert CodeBits(EncodeNamed(m, data)) + Falses(pad) == CodeBits(e.codes + [Code(0, e.width)]) + (rest + Falses(pad));
      NameIsMisread(m, data, i - 1, e, CodeBits(EncodeNamed(m, data)) + Falses(pad), rest + Falses(pad));
    } else {
      hide MeetsName;
      SameCodes(m, data);
      RasterDecodes(m, data, pad);
    }
  }

  // ----- which rasters are safe, and one that is not -----

  /** The matched string is the end of the pixels read. */
  lemma {:induction false} MatchedIsSuffix(m: nat, data: Pixels)
    requires 2 <= m <= 8 && data != [] && PixelsBelow(data, Pow2(m))
    ensures var s := FeedAllNamed(m, data).s; 0 < |s| <= |data| && s == data[|data| - |s|..]
    decreases |data|
  {
    hide IsInherited, Pow2, Safe, NumberOf;
    if |data| > 1 {
      MatchedIsSuffix(m, data[..|data| - 1]);
    }
  }

  /** Up to six bits per pixel no name can be spelled. */
  lemma SixBitsMeetNoName(m: nat, data: Pixels)
    requires 2 <= m <= 6 && PixelsBelow(data, Pow2(m))
    ensures !MeetsName(m, data)
  {
    hide *;
    forall i | 0 < i <= |data| ensures PixelsBelow(data[..i], Pow2(m)) && !IsInherited(FeedAllNamed(m, data[..i]).s) {
      PixelsFront(m, data, i);
      MatchedIsSuffix(m, data[..i]);
      SmallIsNoName(FeedAllNamed(m, data[..i]).s);
    }
    NoneIsMet(m, data);
  }

  lemma PixelsFront(m: nat, data: Pixels, n: nat)
    requires m <= 6 && PixelsBelow(data, Pow2(m)) && n <= |data|
    ensures PixelsBelow(data[..n], Pow2(m))
    ensures forall k :: 0 <= k < n ==> data[..n][k] < 64
  {
    assert Pow2(6) == 64;
    Pow2Monotone(m, 6);
    hide Pow2;
  }

  lemma NoneIsMet(m: nat, data: Pixels)
    requires 2 <= m <= 8 && PixelsBelow(data, Pow2(m))
    requires forall i :: 0 < i <= |data| ==> PixelsBelow(data[..i], Pow2(m)) && !IsInherited(FeedAllNamed(m, data[..i]).s)
    ensures !MeetsName(m, data)
  {
    hide IsInherited, FeedAllNamed, Pow2;
  }

  lemma SmallIsNoName(s: Pixels)
    requires s != [] && (s[0] < 64 || |s| < 7)
    ensures !IsInherited(s)
  {
    if IsInherited(s) { InheritedShape(s, 0); }
  }

  /** The prefixes of `w` of lengths 2 to k, one after the other: each teaches the compressor the next. */
  function Ladder(w: Pixels, k: nat): Pixels
    requires k <= |w|
  {
    if k < 2 then [] else Ladder(w, k - 1) + w[..k]
  }

  ghost predicate DifferentLetters(w: Pixels) {
    forall i, j :: 0 <= i < j < |w| ==> w[i] != w[j]
  }

  /** A string of two letters from a later letter down to the first, the later one among the first `down`. */
  ghost predicate IsStep(s: Pixels, w: Pixels, down: nat) {
    |s| == 2 && exists j :: 0 < j < |w| && j < down && s[0] == w[j] && s[1] == w[0]
  }

  /** What the table holds on the way up: single values, prefixes of `w` of up to `k` letters, and steps. */
  ghost predicate Rung(s: Pixels, w: Pixels, k: nat, down: nat) {
    || |s| == 1
    || (2 <= |s| <= k && |s| <= |w| && s == w[..|s|])
    || IsStep(s, w, down)
  }

  ghost predicate Climbing(table: seq<Pixels>, w: Pixels, k: nat, down: nat)
    requires k <= |w|
  {
    && (forall s :: s in table ==> Rung(s, w, k, down))
    && (forall j :: 2 <= j <= k ==> w[..j] in table)
  }

  lemma OnTable(table: seq<Pixels>, s: Pixels)
    ensures forall t :: t in table + [s] <==> t in table || t == s
  {
  }

  lemma StepIsNew(table: seq<Pixels>, w: Pixels, k: nat)
    requires 2 <= k <= |w| && DifferentLetters(w) && Climbing(table, w, k, k - 1)
    ensures [w[k - 1], w[0]] !in table
  {
    var s := [w[k - 1], w[0]];
    assert s[0] == w[k - 1] && s[1] == w[0];
    assert s != w[..2] by { assert w[..2][1] == w[1]; }
    assert !Rung(s, w, k, k - 1);
  }

  lemma AddStep(table: seq<Pixels>, w: Pixels, k: nat)
    requires 2 <= k <= |w| && Climbing(table, w, k, k - 1)
    ensures Climbing(table + [[w[k - 1], w[0]]], w, k, k)
  {
    var s := [w[k - 1], w[0]];
    OnTable(table, s);
    assert IsStep(s, w, k) by { assert s[0] == w[k - 1]; }
    forall t | t in table ensures Rung(t, w, k, k) {
      assert Rung(t, w, k, k - 1);
    }
  }

  lemma PrefixIsNew(table: seq<Pixels>, w: Pixels, k: nat)
    requires 2 <= k < |w| && Climbing(table, w, k, k)
    ensures w[..k + 1] !in table
  {
    assert !Rung(w[..k + 1], w, k, k);
  }

  lemma AddPrefix(table: seq<Pixels>, w: Pixels, k: nat)
    requires 2 <= k < |w| && Climbing(table, w, k, k)
    ensures Climbing(table + [w[..k + 1]], w, k + 1, k)
  {
    OnTable(table, w[..k + 1]);
    forall t | t in table ensures Rung(t, w, k + 1, k) {
      assert Rung(t, w, k, k);
    }
  }

  /** The compressor between two prefixes: it holds the last letter of the one of `k` letters. */
  ghost predicate OnLadder(m: nat, e: Encoder, w: Pixels, k: nat)
    requires k <= |w|
  {
    2 <= k && Climbing(e.table, w, k, k - 1) && |e.table| <= Pow2(m) + 2 * k && e.s == [w[k - 1]]
  }

  /** A new string that is not a name is entered. */
  lemma NewIsEntered(e: Encoder, c: nat)
    requires e.s + [c] !in e.table && !IsInherited(e.s + [c]) && |e.table| < FULL
    ensures var f := FeedNamed(e, c); f.table == e.table + [e.s + [c]] && f.s == [c]
  {
    hide IsInherited, NumberOf;
  }

  lemma RoomOnLadder(m: nat)
    requires m <= 8
    ensures Pow2(m) <= 256
  {
    SmallPowers();
    Pow2Monotone(m, 8);
  }

  /** From the last letter of a prefix down to the first letter. */
  lemma StepDown(m: nat, e: Encoder, w: Pixels, k: nat)
    requires m <= 8 && k <= |w| <= 7 && DifferentLetters(w) && OnLadder(m, e, w, k)
    ensures var f := FeedNamed(e, w[0]);
      Climbing(f.table, w, k, k) && |f.table| <= Pow2(m) + 2 * k + 1 && f.s == w[..1]
  {
    hide IsInherited, Pow2, FeedNamed, Climbing;
    RoomOnLadder(m);
    assert e.s + [w[0]] == [w[k - 1], w[0]];
    SmallIsNoName([w[k - 1], w[0]]);
    StepIsNew(e.table, w, k);
    NewIsEntered(e, w[0]);
    AddStep(e.table, w, k);
  }

  /** Up along the prefixes the table knows. */
  lemma StepUp(e: Encoder, w: Pixels, k: nat, j: nat)
    requires k <= |w| && 0 < j < k && Climbing(e.table, w, k, k) && e.s == w[..j]
    ensures FeedNamed(e, w[j]) == e.(s := w[..j + 1])
  {
    hide IsInherited, EmitNamed;
    assert e.s + [w[j]] == w[..j + 1];
  }

  /** One letter further than before. */
  lemma StepBeyond(m: nat, e: Encoder, w: Pixels, k: nat)
    requires m <= 8 && 2 <= k < |w| && k + 1 < 7
    requires Climbing(e.table, w, k, k) && |e.table| <= Pow2(m) + 2 * k + 1 && e.s == w[..k]
    ensures OnLadder(m, FeedNamed(e, w[k]), w, k + 1)
  {
    hide IsInherited, Pow2, FeedNamed, Climbing;
    RoomOnLadder(m);
    assert e.s + [w[k]] == w[..k + 1];
    SmallIsNoName(w[..k + 1]);
    PrefixIsNew(e.table, w, k);
    NewIsEntered(e, w[k]);
    AddPrefix(e.table, w, k);
  }

  // ----- feeding the ladder -----

  lemma FeedSnoc(m: nat, data: Pixels, c: nat)
    requires 2 <= m <= 8 && data != [] && PixelsBelow(data, Pow2(m)) && c < Pow2(m)
    ensures PixelsBelow(data + [c], Pow2(m)) && FeedAllNamed(m, data + [c]) == FeedNamed(FeedAllNamed(m, data), c)
  {
    hide FeedNamed, Safe, Pow2;
    assert (data + [c])[..|data|] == data;
  }

  /** After a prefix of `k` letters, the first `j` letters of the word lead up the ladder. */
  lemma {:induction false} ClimbTo(m: nat, data: Pixels, w: Pixels, k: nat, j: nat)
    requires 2 <= m <= 8 && data != [] && PixelsBelow(data, Pow2(m)) && PixelsBelow(w, Pow2(m))
    requires 0 < j <= k <= |w| <= 7 && DifferentLetters(w) && OnLadder(m, FeedAllNamed(m, data), w, k)
    ensures PixelsBelow(data + w[..j], Pow2(m))
    ensures var e := FeedAllNamed(m, data + w[..j]);
      Climbing(e.table, w, k, k) && |e.table| <= Pow2(m) + 2 * k + 1 && e.s == w[..j]
    decreases j
  {
    hide FeedNamed, FeedAllNamed, Pow2, Climbing;
    assert data + w[..j] == data + w[..j - 1] + [w[j - 1]];
    if j == 1 {
      assert data + w[..0] == data;
      FeedSnoc(m, data, w[0]);
      StepDown(m, FeedAllNamed(m, data), w, k);
    } else {
      ClimbTo(m, data, w, k, j - 1);
      FeedSnoc(m, data + w[..j - 1], w[j - 1]);
      StepUp(FeedAllNamed(m, data + w[..j - 1]), w, k, j - 1);
    }
  }

  lemma LadderStarts(m: nat, w: Pixels)
    requires 2 <= m <= 8 && 2 <= |w| <= 7 && DifferentLetters(w) && PixelsBelow(w, Pow2(m))
    ensures PixelsBelow(w[..2], Pow2(m)) && OnLadder(m, FeedAllNamed(m, w[..2]), w, 2)
  {
    hide FeedNamed, Pow2, IsInherited;
    RoomOnLadder(m);
    assert w[..2] == w[..1] + [w[1]];
    OneFed(m, w);
    FeedSnoc(m, w[..1], w[1]);
    SmallIsNoName([w[0], w[1]]);
    var e := Start(m, w[0]);
    assert e.s + [w[1]] == [w[0], w[1]] == w[..2];
    NewIsEntered(e, w[1]);
    OnTable(e.table, w[..2]);
  }

  lemma OneFed(m: nat, w: Pixels)
    requires 2 <= m <= 8 && w != [] && PixelsBelow(w, Pow2(m))
    ensures PixelsBelow(w[..1], Pow2(m)) && FeedAllNamed(m, w[..1]) == Start(m, w[0])
  {
    hide Safe, Pow2, Start;
  }

  lemma {:induction false} FeedLadder(m: nat, w: Pixels, k: nat)
    requires 2 <= m <= 8 && |w| == 7 && DifferentLetters(w) && PixelsBelow(w, Pow2(m)) && 2 <= k < 7
    ensures Ladder(w, k) != [] && PixelsBelow(Ladder(w, k), Pow2(m)) && OnLadder(m, FeedAllNamed(m, Ladder(w, k)), w, k)
    decreases k
  {
    hide FeedNamed, FeedAllNamed, Pow2, Climbing;
    if k == 2 {
      LadderStarts(m, w);
      assert Ladder(w, 2) == w[..2];
    } else {
      FeedLadder(m, w, k - 1);
      var data := Ladder(w, k - 1);
      ClimbTo(m, data, w, k - 1, k - 1);
      FeedSnoc(m, data + w[..k - 1], w[k - 1]);
      StepBeyond(m, FeedAllNamed(m, data + w[..k - 1]), w, k - 1);
      assert Ladder(w, k) == data + w[..k - 1] + [w[k - 1]];
    }
  }

  /** With seven or eight bits per pixel some raster does meet a name: the ladder of the prefixes of
      "valueOf". */
  lemma LadderMeetsName(m: nat)
    requires 7 <= m <= 8
    ensures var data := Ladder(Spelled("valueOf"), 7); PixelsBelow(data, Pow2(m)) && MeetsName(m, data)
  {
    var w := Spelled("valueOf");
    ValueOfLetters(m);
    var data := Ladder(w, 6);
    hide Climbing, FeedNamed, FeedAllNamed, Pow2, Ladder;
    FeedLadder(m, w, 6);
    ClimbTo(m, data, w, 6, 6);
    FeedSnoc(m, data + w[..6], w[6]);
    LadderTop(w);
    NameIsMatched(FeedAllNamed(m, data + w[..6]), w);
    var all := Ladder(w, 7);
    assert all[..|all|] == all == data + w[..6] + [w[6]];
  }

  lemma LadderTop(w: Pixels)
    requires |w| == 7
    ensures Ladder(w, 7) == Ladder(w, 6) + w[..6] + [w[6]]
  {
    assert w[..7] == w[..6] + [w[6]];
  }

  lemma ValueOfLetters(m: nat)
    requires 7 <= m <= 8
    ensures DifferentLetters(Spelled("valueOf")) && PixelsBelow(Spelled("valueOf"), Pow2(m))
  {
    assert Pow2(7) == 128;
    Pow2Monotone(7, m);
  }

  lemma NameIsMatched(e: Encoder, w: Pixels)
    requires w == Spelled("valueOf") && e.s == w[..6]
    ensures FeedNamed(e, w[6]).s == w && IsInherited(w)
  {
    hide EmitNamed;
    assert e.s + [w[6]] == w;
  }
}
