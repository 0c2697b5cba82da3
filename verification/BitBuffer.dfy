/** The encoder's bit buffer: bits packed into bytes, most significant first. */
module BitBuffer {
  import opened Bits

  /** The bits of all bytes of `b` in order. */
  function AllBits(b: seq<Byte>): seq<bool> {
    if b == [] then [] else AllBits(b[..|b| - 1]) + MsbBits(b[|b| - 1], WIDTH)
  }

  lemma {:induction false} AllBitsLength(b: seq<Byte>)
    ensures |AllBits(b)| == 8 * |b|
  {
    if b != [] { AllBitsLength(b[..|b| - 1]); }
  }

  lemma {:induction false} AllBitsAt(b: seq<Byte>, i: nat)
    requires i < |b|
    ensures |AllBits(b)| == 8 * |b| && AllBits(b)[8 * i..8 * i + 8] == MsbBits(b[i], WIDTH)
  {
    AllBitsLength(b);
    AllBitsLength(b[..|b| - 1]);
    if i < |b| - 1 {
      AllBitsAt(b[..|b| - 1], i);
    }
  }

  lemma {:induction false} AllBitsInjective(a: seq<Byte>, b: seq<Byte>)
    requires AllBits(a) == AllBits(b)
    ensures a == b
  {
    AllBitsLength(a);
    AllBitsLength(b);
    if a != [] {
      var n := |a| - 1;
      AllBitsLength(a[..n]);
      AllBitsLength(b[..n]);
      assert AllBits(a)[..8 * n] == AllBits(a[..n]) && AllBits(b)[..8 * n] == AllBits(b[..n]);
      assert AllBits(a)[8 * n..] == MsbBits(a[n], WIDTH) && AllBits(b)[8 * n..] == MsbBits(b[n], WIDTH);
      AllBitsInjective(a[..n], b[..n]);
      assert Pow2(8) == 256;
      MsbBitsInjective(a[n], b[n], WIDTH);
      assert a == a[..n] + [a[n]] && b == b[..n] + [b[n]];
    }
  }

  lemma MaskIsByte(k: nat)
    requires k < WIDTH
    ensures Pow2(7 - k) < 256
  {
    assert Pow2(7) == 128;
    Pow2Monotone(7 - k, 7);
  }

  lemma SetBitAt(s: seq<bool>, m: seq<bool>, k: nat)
    requires |s| == |m| == WIDTH && k < WIDTH
    requires forall i :: 0 <= i < WIDTH ==> m[i] == (i == 7 - k)
    ensures OrBits(s, m) == s[7 - k := true]
  {
  }

  /** Oring in the mask 0x80 >>> k sets bit k. */
  lemma SetBit(a: Byte, k: nat)
    requires k < WIDTH
    ensures Pow2(7 - k) < 256
    ensures MsbBits(Or(a, Pow2(7 - k)), WIDTH) == MsbBits(a, WIDTH)[k := true]
  {
    hide Pow2, Or, ToBits;
    MaskIsByte(k);
    var m := Pow2(7 - k);
    BitsOfPow2(7 - k, WIDTH);
    BitsOfOr(a, m);
    SetBitAt(ToBits(a, WIDTH), ToBits(m, WIDTH), k);
    hide OrBits;
    assert ToBits(Or(a, m), WIDTH) == ToBits(a, WIDTH)[7 - k := true];
  }

  lemma ZeroByte()
    ensures MsbBits(0, WIDTH) == Falses(WIDTH)
  {
    ToBitsZero(WIDTH);
  }

  /** `b` stores exactly `bits`: the rest of its last byte is zero. */
  ghost predicate Stores(b: seq<Byte>, bits: seq<bool>) {
    |bits| <= 8 * |b| && AllBits(b) == bits + Falses(8 * |b| - |bits|)
  }

  lemma StoresInOneMore(b: seq<Byte>, bits: seq<bool>)
    requires Stores(b, bits)
    ensures Stores(b + [0], bits)
  {
    ZeroByte();
    assert (b + [0])[..|b|] == b;
    hide AllBits, MsbBits;
    assert Falses(8 * |b| - |bits|) + Falses(8) == Falses(8 * (|b| + 1) - |bits|);
  }

  lemma StoresFalse(b: seq<Byte>, bits: seq<bool>)
    requires Stores(b, bits) && |bits| < 8 * |b|
    ensures Stores(b, bits + [false])
  {
    hide AllBits;
    assert Falses(8 * |b| - |bits|) == [false] + Falses(8 * |b| - |bits| - 1);
  }

  lemma StoresTrue(front: seq<Byte>, last: Byte, bits: seq<bool>, k: nat)
    requires Stores(front + [last], bits) && 8 * |front| + k == |bits| && k < 8
    ensures Pow2(7 - k) < 256
    ensures Stores(front + [Or(last, Pow2(7 - k))], bits + [true])
  {
    SetBit(last, k);
    AllBitsLength(front);
    var b, last' := front + [last], Or(last, Pow2(7 - k));
    var b' := front + [last'];
    assert b[..|front|] == front && b'[..|front|] == front;
    assert AllBits(b) == AllBits(front) + MsbBits(last, WIDTH);
    assert AllBits(b') == AllBits(front) + MsbBits(last, WIDTH)[k := true];
    hide AllBits, MsbBits, Or, Pow2;
    StoresTrueBits(AllBits(front), MsbBits(last, WIDTH), bits, k);
  }

  lemma StoresTrueBits(front: seq<bool>, last: seq<bool>, bits: seq<bool>, k: nat)
    requires |last| == 8 && |front| + k == |bits| && k < 8
    requires front + last == bits + Falses(8 - k)
    ensures front + last[k := true] == bits + [true] + Falses(7 - k)
  {
    var x, y := front + last, bits + Falses(8 - k);
    var x', y' := front + last[k := true], bits + [true] + Falses(7 - k);
    forall i | 0 <= i < |x'| ensures x'[i] == y'[i] {
      assert x[i] == y[i];
    }
  }

  class QrBitBuffer {
    var buffer: seq<Byte>
    var length: nat
    ghost var Contents: seq<bool>  // the bits put so far

    ghost predicate Valid()
      reads this
    {
      |Contents| == length && 8 * |buffer| < length + 8 && Stores(buffer, Contents)
    }

    constructor ()
      ensures Valid() && Contents == []
    {
      buffer, length, Contents := [], 0, [];
    }

    method PutBit(bit: bool)
      requires Valid()
      modifies this
      ensures Valid() && Contents == old(Contents) + [bit]
    {
      hide Stores, Or, Pow2;
      StoresLength(buffer, Contents);
      var bufIndex := length / 8;
      if |buffer| <= bufIndex {
        StoresInOneMore(buffer, Contents);
        buffer := buffer + [0];
      }
      if bit {
        ghost var front := buffer[..bufIndex];
        assert buffer == front + [buffer[bufIndex]];
        StoresTrue(front, buffer[bufIndex], Contents, length % 8);
        buffer := buffer[bufIndex := Or(buffer[bufIndex], Pow2(7 - length % 8))];
        assert buffer == front + [buffer[bufIndex]];
      } else {
        StoresFalse(buffer, Contents);
      }
      length := length + 1;
      Contents := Contents + [bit];
    }

    /** The `count` low bits of `num`, most significant first. */
    method Put(num: nat, count: nat)
      requires Valid() && num < 0x1_0000_0000 && count <= 32
      modifies this
      ensures Valid() && Contents == old(Contents) + MsbBits(num, count)
    {
      hide Stores, ToBits;
      for i := 0 to count
        invariant Valid()
        invariant Contents == old(Contents) + MsbBits(num, count)[..i]
      {
        BitByShift(num, count, count - i - 1);
        PutBit(ShiftRight(num, count - i - 1) % 2 == 1);
      }
    }

    method GetAt(index: nat) returns (bit: bool)
      requires Valid()
      ensures bit <==> index < length && Contents[index]
    {
      var bufIndex, k := index / 8, index % 8;
      if bufIndex < |buffer| {
        BitByShift(buffer[bufIndex], WIDTH, 7 - k);
        StoredBit(buffer, Contents, bufIndex, k);
        bit := ShiftRight(buffer[bufIndex], 7 - k) % 2 == 1;
      } else {
        bit := false;
      }
    }
  }

  lemma StoresLength(b: seq<Byte>, bits: seq<bool>)
    requires Stores(b, bits)
    ensures |bits| <= 8 * |b|
  {
  }

  lemma StoredBit(b: seq<Byte>, bits: seq<bool>, j: nat, k: nat)
    requires Stores(b, bits) && j < |b| && k < 8
    ensures MsbBits(b[j], WIDTH)[k] <==> 8 * j + k < |bits| && bits[8 * j + k]
  {
    AllBitsAt(b, j);
    hide AllBits, MsbBits;
    assert AllBits(b)[8 * j + k] == AllBits(b)[8 * j..8 * j + 8][k];
  }
}
