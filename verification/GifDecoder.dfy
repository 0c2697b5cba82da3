/** A decoder for LZW raster data, as Appendix F of the GIF89a specification describes it: it rebuilds
    the string table one code behind the encoder and grows its code width when its table is full. */
module GifDecoder {
  import opened Bits
  import opened Exceptions

  /** A string of pixel values. */
  type Pixels = seq<nat>

  datatype Status = Running | Ended | Failed

  datatype Decoder = Decoder(table: seq<Pixels>, width: nat, prev: Option<Pixels>, out: Pixels, status: Status)

  function ClearCode(m: nat): nat {
    Pow2(m)
  }

  function EndCode(m: nat): nat {
    Pow2(m) + 1
  }

  const MAX_WIDTH: nat := 12
  const MAX_CODES: nat := 4096

  /** One entry per pixel value, and one each for the clear and end codes. */
  function InitialTable(m: nat): (t: seq<Pixels>)
    ensures |t| == Pow2(m) + 2
  {
    seq(Pow2(m) + 2, i requires 0 <= i => [i])
  }

  function InitialDecoder(m: nat): Decoder {
    Decoder(InitialTable(m), m + 1, None, [], Running)
  }

  /** The table after one more entry, and the width after that. */
  function Grown(d: Decoder, entry: Pixels): Decoder {
    if |d.table| < MAX_CODES then
      var table := d.table + [entry];
      d.(table := table, width := if |table| == Pow2(d.width) && d.width < MAX_WIDTH then d.width + 1 else d.width)
    else d
  }

  /** What the decoder does with one code. */
  function Step(m: nat, d: Decoder, code: nat): Decoder {
    if code == ClearCode(m) then
      d.(table := InitialTable(m), width := m + 1, prev := None)
    else if code == EndCode(m) then
      d.(status := Ended)
    else
      match d.prev
      case None =>
        if code < |d.table| then d.(prev := Some(d.table[code]), out := d.out + d.table[code])
        else d.(status := Failed)
      case Some(p) =>
        if code < |d.table| && d.table[code] != [] then
          var s := d.table[code];
          Grown(d, p + [s[0]]).(prev := Some(s), out := d.out + s)
        else if code == |d.table| && p != [] then
          var s := p + [p[0]];
          Grown(d, s).(prev := Some(s), out := d.out + s)
        else d.(status := Failed)
  }

  /** Reads codes off a bit stream until the end code, an error, or too few bits for another code. */
  function Read(m: nat, d: Decoder, bits: seq<bool>): Decoder
    decreases |bits|
  {
    if d.status != Running || d.width == 0 || |bits| < d.width then d
    else Read(m, Step(m, d, FromBits(bits[..d.width])), bits[d.width..])
  }

  /** The rules of Appendix F in numbers. Codes start at one bit more than a pixel; 2^m clears the table back
      to one entry per pixel value, 2^m + 1 ends the raster; any other code in the table writes its string and
      enters the string before it with the first pixel of the new one, and the code just past the table is the
      string before it with its own first pixel; the width grows when the table fills it, up to 12 bits. */
  lemma AppendixF(m: nat, d: Decoder, code: nat, p: Pixels)
    ensures var i := InitialDecoder(m); i.width == m + 1 && i.prev == None && i.out == [] && |i.table| == Pow2(m) + 2
    ensures forall v :: 0 <= v < Pow2(m) ==> InitialDecoder(m).table[v] == [v]
    ensures code == Pow2(m) ==> Step(m, d, code) == Decoder(InitialDecoder(m).table, m + 1, None, d.out, d.status)
    ensures code == Pow2(m) + 1 ==> Step(m, d, code) == d.(status := Ended)
    ensures code != Pow2(m) && code != Pow2(m) + 1 && d.prev == None && code < |d.table| ==>
      Step(m, d, code) == d.(prev := Some(d.table[code]), out := d.out + d.table[code])
    ensures code != Pow2(m) && code != Pow2(m) + 1 && d.prev == Some(p) && p != [] && d.status == Running ==>
      code <= |d.table| && (code < |d.table| ==> d.table[code] != []) ==>
        var s := if code < |d.table| then d.table[code] else p + [p[0]];
        var grows := |d.table| < 4096;
        Step(m, d, code) == Decoder(
          if grows then d.table + [p + [s[0]]] else d.table,
          if grows && |d.table| + 1 == Pow2(d.width) && d.width < 12 then d.width + 1 else d.width,
          Some(s), d.out + s, Running)
  {
    hide Pow2;
  }

  // ----- runs of codes -----

  /** A code and the number of bits it is written in. */
  datatype Code = Code(value: nat, width: nat)

  function CodeBits(cs: seq<Code>): seq<bool> {
    if cs == [] then [] else CodeBits(cs[..|cs| - 1]) + ToBits(cs[|cs| - 1].value, cs[|cs| - 1].width)
  }

  /** The decoder after the codes `cs`, whatever their widths. */
  function After(m: nat, cs: seq<Code>): Decoder {
    if cs == [] then InitialDecoder(m) else Step(m, After(m, cs[..|cs| - 1]), cs[|cs| - 1].value)
  }

  /** At every code the decoder is running, expects exactly the width the code was written in, and the
      code fits in it. */
  ghost predicate InStep(m: nat, cs: seq<Code>) {
    cs == [] || (
      var front, c := cs[..|cs| - 1], cs[|cs| - 1];
      InStep(m, front) && After(m, front).status == Running && After(m, front).width == c.width && c.width > 0 && c.value < Pow2(c.width))
  }

  /** The bits of the codes start with those of the first one. */
  lemma {:induction false} CodeBitsFirst(cs: seq<Code>)
    requires cs != []
    ensures ToBits(cs[0].value, cs[0].width) <= CodeBits(cs)
  {
    hide ToBits;
    if |cs| > 1 { CodeBitsFirst(cs[..|cs| - 1]); }
  }

  /** Codes written in step with the decoder are read back as they are. */
  lemma {:induction false} ReadInStep(m: nat, cs: seq<Code>, rest: seq<bool>)
    requires InStep(m, cs)
    ensures Read(m, InitialDecoder(m), CodeBits(cs) + rest) == Read(m, After(m, cs), rest)
    decreases |cs|
  {
    hide Step, InitialDecoder, Read;
    if cs == [] {
      assert CodeBits(cs) + rest == rest;
    } else {
      var front, c := cs[..|cs| - 1], cs[|cs| - 1];
      var b := ToBits(c.value, c.width);
      ReadInStep(m, front, b + rest);
      assert CodeBits(cs) + rest == CodeBits(front) + (b + rest);
      ReadOne(m, After(m, front), c, rest);
    }
  }

  lemma ReadOne(m: nat, d: Decoder, c: Code, rest: seq<bool>)
    requires d.status == Running && d.width == c.width > 0 && c.value < Pow2(c.width)
    ensures Read(m, d, ToBits(c.value, c.width) + rest) == Read(m, Step(m, d, c.value), rest)
  {
    hide Step, ToBits, FromBits;
    var b := ToBits(c.value, c.width);
    FromToBits(c.value, c.width);
    assert (b + rest)[..c.width] == b && (b + rest)[c.width..] == rest;
  }
}
