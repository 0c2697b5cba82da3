/** The GIF bit stream: codes of varying width packed into bytes, least significant bit first. */
module BitOutput {
  import opened Bits

  /** Machine words: the script shifts and ors 32-bit numbers. */
  const WORD_BITS: nat := 32

  type Word = n: nat | n < 0x1_0000_0000

  lemma WordRange()
    ensures Pow2(WORD_BITS) == 0x1_0000_0000
  {
    assert Pow2(8) == 256;
    Pow2Sum(8, 8);
    Pow2Sum(16, 16);
  }

  lemma {:induction false} Pow2Sum(m: nat, n: nat)
    ensures Pow2(m + n) == Pow2(m) * Pow2(n)
  {
    if m > 0 { Pow2Sum(m - 1, n); }
  }

  /** `n << k`: the bits move up, those past bit 31 are lost. */
  function ShiftLeft(n: Word, k: nat): Word
    requires k < WORD_BITS
  {
    WordRange();
    FromBits(Falses(k) + ToBits(n, WORD_BITS - k))
  }

  /** `a | b` */
  function OrWord(a: Word, b: Word): Word {
    WordRange();
    FromBits(OrBits(ToBits(a, WORD_BITS), ToBits(b, WORD_BITS)))
  }

  // ----- bits of numbers -----

  lemma {:induction false} BitsPrefix(n: nat, j: nat, k: nat)
    requires j <= k
    ensures ToBits(n, k)[..j] == ToBits(n, j)
  {
    if j > 0 { BitsPrefix(n / 2, j - 1, k - 1); }
  }

  lemma {:induction false} BitsSuffix(n: nat, j: nat, k: nat)
    requires j <= k
    ensures ToBits(n, k)[j..] == ToBits(ShiftRight(n, j), k - j)
  {
    if j > 0 { BitsSuffix(n / 2, j - 1, k - 1); }
  }

  lemma {:induction false} SmallBits(n: nat, j: nat, k: nat)
    requires j <= k && n < Pow2(j)
    ensures ToBits(n, k) == ToBits(n, j) + Falses(k - j)
  {
    if j == 0 {
      ToBitsZero(k);
      assert ToBits(0, k) == Falses(k);
    } else {
      SmallBits(n / 2, j - 1, k - 1);
    }
  }

  lemma {:induction false} ShiftRightBound(n: nat, k: nat, m: nat)
    ensures ShiftRight(n, k) < Pow2(m) <==> n < Pow2(k + m)
  {
    if k > 0 {
      ShiftRightBound(n / 2, k - 1, m);
      assert n / 2 < Pow2(k - 1 + m) <==> n < Pow2(k + m);
    }
  }

  lemma {:induction false} ShiftRightSmaller(n: nat, k: nat)
    ensures ShiftRight(n, k) <= n
  {
    if k > 0 { ShiftRightSmaller(n / 2, k - 1); }
  }

  lemma OrOfParts(x: seq<bool>, y: seq<bool>, k: nat)
    requires |x| == k <= WORD_BITS && |y| == WORD_BITS - k
    ensures OrBits(Falses(k) + y, x + Falses(WORD_BITS - k)) == x + y
  {
  }

  lemma BitsOfShiftLeft(n: Word, k: nat)
    requires k < WORD_BITS
    ensures ToBits(ShiftLeft(n, k), WORD_BITS) == Falses(k) + ToBits(n, WORD_BITS - k)
  {
    ToFromBits(Falses(k) + ToBits(n, WORD_BITS - k));
  }

  lemma BitsOfOrWord(a: Word, b: Word)
    ensures ToBits(OrWord(a, b), WORD_BITS) == OrBits(ToBits(a, WORD_BITS), ToBits(b, WORD_BITS))
  {
    ToFromBits(OrBits(ToBits(a, WORD_BITS), ToBits(b, WORD_BITS)));
  }

  /** `buf` in the low `k` bits, `data` above them. */
  lemma JoinedBits(data: Word, buf: Word, k: nat)
    requires k < WORD_BITS && buf < Pow2(k)
    ensures ToBits(OrWord(ShiftLeft(data, k), buf), WORD_BITS) == ToBits(buf, k) + ToBits(data, WORD_BITS - k)
  {
    hide ToBits, Pow2, ShiftLeft, OrWord, OrBits;
    SmallBits(buf, k, WORD_BITS);
    BitsOfShiftLeft(data, k);
    BitsOfOrWord(ShiftLeft(data, k), buf);
    OrOfParts(ToBits(buf, k), ToBits(data, WORD_BITS - k), k);
  }

  /** `0xff & n` */
  function LowByte(n: nat): Byte {
    assert Pow2(8) == 256;
    FromBits(ToBits(n, WIDTH))
  }

  lemma BitsOfLowByte(n: nat)
    ensures ToBits(LowByte(n), WIDTH) == ToBits(n, WIDTH)
  {
    ToFromBits(ToBits(n, WIDTH));
  }

  // ----- the stream -----

  /** The bits of all bytes in order, each least significant bit first. */
  function StreamBits(bytes: seq<Byte>): seq<bool> {
    if bytes == [] then [] else StreamBits(bytes[..|bytes| - 1]) + ToBits(bytes[|bytes| - 1], WIDTH)
  }

  lemma {:induction false} StreamLength(bytes: seq<Byte>)
    ensures |StreamBits(bytes)| == 8 * |bytes|
  {
    if bytes != [] { StreamLength(bytes[..|bytes| - 1]); }
  }

  /** Bit `j` of byte `i` counts 2^j. */
  lemma {:induction false} StreamBitAt(bytes: seq<Byte>, i: nat, j: nat)
    requires i < |bytes| && j < 8
    ensures |StreamBits(bytes)| == 8 * |bytes| && StreamBits(bytes)[8 * i + j] == (bytes[i] / Pow2(j) % 2 == 1)
  {
    hide ToBits, Pow2;
    var n := |bytes| - 1;
    StreamLength(bytes[..n]);
    if i < n {
      StreamBitAt(bytes[..n], i, j);
    } else {
      BitByShift(bytes[n], WIDTH, j);
      ShiftIsDivision(bytes[n], j);
    }
  }

  lemma StreamSnoc(bytes: seq<Byte>, b: Byte)
    ensures StreamBits(bytes + [b]) == StreamBits(bytes) + ToBits(b, WIDTH)
  {
    assert (bytes + [b])[..|bytes|] == bytes;
  }

  class BitOutputStream {
    var out: seq<Byte>
    var bitLength: nat
    var bitBuffer: Word

    ghost predicate Valid()
      reads this
    {
      bitLength < 8 && bitBuffer < Pow2(bitLength)
    }

    /** All bits written so far. */
    ghost function Contents(): seq<bool>
      reads this
    {
      StreamBits(out) + ToBits(bitBuffer, bitLength)
    }

    constructor ()
      ensures Valid() && Contents() == [] && out == []
    {
      out, bitLength, bitBuffer := [], 0, 0;
    }

    /** Appends the `count` low bits of `value`. It throws when `value` does not fit in them. */
    method Write(value: nat, count: nat) returns (ok: bool)
      requires Valid() && value < 0x1_0000_0000 && count < 32
      modifies this
      ensures ok <==> value < Pow2(count)
      ensures ok ==> Valid() && Contents() == old(Contents()) + ToBits(value, count)
    {
      hide ToBits, Pow2, StreamBits, OrWord, ShiftLeft, LowByte;
      ShiftRightBound(value, count, 0);
      PowOfZero();
      if ShiftRight(value, count) != 0 {
        return false;
      }
      var data: Word, length: nat := value, count;
      while bitLength + length >= 8
        invariant Valid() && length <= count && data < Pow2(length)
        invariant Contents() + ToBits(data, length) == old(Contents()) + ToBits(value, count)
        decreases length, bitLength
      {
        PackedByte(out, bitBuffer, bitLength, data, length);
        out := out + [LowByte(OrWord(ShiftLeft(data, bitLength), bitBuffer))];
        ShiftRightBound(data, 8 - bitLength, length - (8 - bitLength));
        ShiftRightSmaller(data, 8 - bitLength);
        length := length - (8 - bitLength);
        data := ShiftRight(data, 8 - bitLength);
        bitBuffer := 0;
        bitLength := 0;
      }
      BufferedBits(bitBuffer, bitLength, data, length);
      bitBuffer := OrWord(ShiftLeft(data, bitLength), bitBuffer);
      bitLength := bitLength + length;
      return true;
    }

    /** The last, incomplete byte. */
    method Flush()
      requires Valid()
      modifies this
      ensures 8 * |out| < |old(Contents())| + 8 && |old(Contents())| <= 8 * |out|
      ensures StreamBits(out) == old(Contents()) + Falses(8 * |out| - |old(Contents())|)
    {
      hide ToBits, Pow2, StreamBits, LowByte;
      StreamLength(out);
      if bitLength > 0 {
        SmallBits(bitBuffer, bitLength, WIDTH);
        BitsOfLowByte(bitBuffer);
        StreamSnoc(out, LowByte(bitBuffer));
        out := out + [LowByte(bitBuffer)];
        StreamLength(out);
      } else {
        assert ToBits(bitBuffer, 0) == [];
      }
    }
  }

  lemma PowOfZero()
    ensures Pow2(0) == 1
  {
  }

  /** One full byte: the buffered bits and the first bits of the data; the rest of the data remains. */
  lemma PackedByte(out: seq<Byte>, buf: Word, k: nat, data: Word, length: nat)
    requires k < 8 && buf < Pow2(k) && 8 - k <= length < 32
    ensures StreamBits(out + [LowByte(OrWord(ShiftLeft(data, k), buf))]) + ToBits(ShiftRight(data, 8 - k), length - (8 - k))
         == StreamBits(out) + ToBits(buf, k) + ToBits(data, length)
  {
    hide ToBits, Pow2, StreamBits, OrWord, ShiftLeft, LowByte;
    var w := OrWord(ShiftLeft(data, k), buf);
    JoinedBits(data, buf, k);
    BitsPrefix(w, WIDTH, WORD_BITS);
    BitsOfLowByte(w);
    StreamSnoc(out, LowByte(w));
    BitsPrefix(data, 8 - k, WORD_BITS - k);
    BitsPrefix(data, 8 - k, length);
    BitsSuffix(data, 8 - k, length);
    assert ToBits(w, WIDTH) == ToBits(buf, k) + ToBits(data, length)[..8 - k];
  }

  /** What does not fill a byte stays in the buffer. */
  lemma BufferedBits(buf: Word, k: nat, data: Word, length: nat)
    requires k + length < 8 && buf < Pow2(k) && data < Pow2(length)
    ensures OrWord(ShiftLeft(data, k), buf) < Pow2(k + length)
    ensures ToBits(OrWord(ShiftLeft(data, k), buf), k + length) == ToBits(buf, k) + ToBits(data, length)
  {
    var w := OrWord(ShiftLeft(data, k), buf);
    hide ToBits, Pow2, OrWord, ShiftLeft;
    JoinedBits(data, buf, k);
    BitsPrefix(w, k + length, WORD_BITS);
    SmallBits(data, length, WORD_BITS - k);
    var s := ToBits(buf, k) + ToBits(data, length);
    assert ToBits(w, WORD_BITS) == s + Falses(WORD_BITS - k - length);
    assert ToBits(w, k + length) == s;
    PaddedValue(w, k + length);
  }

  /** A word with zeros above bit `k` is below 2^k. */
  lemma PaddedValue(w: Word, k: nat)
    requires k <= WORD_BITS && ToBits(w, WORD_BITS) == ToBits(w, k) + Falses(WORD_BITS - k)
    ensures w < Pow2(k)
  {
    WordRange();
    var v := FromBits(ToBits(w, k));
    ToFromBits(ToBits(w, k));
    SmallBits(v, k, WORD_BITS);
    Pow2Monotone(k, WORD_BITS);
    ToBitsInjective(w, v, WORD_BITS);
  }
}
