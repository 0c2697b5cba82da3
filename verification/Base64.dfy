/** The script's base64 streams: the alphabet and padding of section 4 of RFC 4648. */
module Base64 {
  import opened Bits
  import opened BitBuffer
  import opened BitOutput
  import opened Exceptions

  // ----- bits, most significant first -----

  /** `buffer << k | n`: the low bits of the buffer, and those of `n` below them. */
  lemma JoinMsb(buffer: Word, buflen: nat, n: Word, k: nat)
    requires n < Pow2(k) && buflen + k <= WORD_BITS && k < WORD_BITS
    ensures MsbBits(OrWord(ShiftLeft(buffer, k), n), buflen + k) == MsbBits(buffer, buflen) + MsbBits(n, k)
  {
    hide ToBits, Pow2, ShiftLeft, OrWord;
    var w := OrWord(ShiftLeft(buffer, k), n);
    JoinedBits(buffer, n, k);
    BitsPrefix(w, buflen + k, WORD_BITS);
    BitsPrefix(buffer, buflen, WORD_BITS - k);
    assert ToBits(w, buflen + k) == ToBits(n, k) + ToBits(buffer, buflen);
  }

  /** `(buffer >>> (buflen - k)) & (2^k - 1)`: the first `k` of the buffered bits. */
  lemma TopMsb(buffer: nat, buflen: nat, k: nat)
    requires k <= buflen
    ensures MsbValue(MsbBits(buffer, buflen)[..k]) == LowBits(ShiftRight(buffer, buflen - k), k)
    ensures MsbBits(buffer, buflen)[k..] == MsbBits(buffer, buflen - k)
  {
    hide ToBits, ShiftRight, FromBits;
    var x := ShiftRight(buffer, buflen - k);
    var top := MsbBits(buffer, buflen)[..k];
    BitsSuffix(buffer, buflen - k, buflen);
    BitsPrefix(buffer, buflen - k, buflen);
    assert seq(|top|, i requires 0 <= i < |top| => top[|top| - 1 - i]) == ToBits(x, k);
  }

  /** `(buffer << k) & (2^(buflen + k) - 1)`: the buffered bits followed by zeros. */
  lemma ShiftedMsb(buffer: Word, buflen: nat, k: nat)
    requires buflen + k <= WORD_BITS && k < WORD_BITS
    ensures MsbValue(MsbBits(buffer, buflen) + Falses(k)) == LowBits(ShiftLeft(buffer, k), buflen + k)
  {
    hide ToBits, ShiftLeft, FromBits;
    var x := ShiftLeft(buffer, k);
    var s := MsbBits(buffer, buflen) + Falses(k);
    BitsOfShiftLeft(buffer, k);
    BitsPrefix(x, buflen + k, WORD_BITS);
    BitsPrefix(buffer, buflen, WORD_BITS - k);
    assert ToBits(x, buflen + k) == Falses(k) + ToBits(buffer, buflen);
    assert seq(|s|, i requires 0 <= i < |s| => s[|s| - 1 - i]) == ToBits(x, buflen + k);
  }

  // ----- the alphabet -----

  const SEXTET: nat := 6

  function Letter(n: nat): char
    requires n < 64
  {
    if n < 26 then (0x41 + n) as char
    else if n < 52 then (0x61 + (n - 26)) as char
    else if n < 62 then (0x30 + (n - 52)) as char
    else if n == 62 then '+'
    else '/'
  }

  function LetterValue(c: char): (r: Result<nat>)
    ensures r.Ok? ==> r.value < 64
  {
    var n := c as int;
    if 0x41 <= n <= 0x5a then Ok(n - 0x41)
    else if 0x61 <= n <= 0x7a then Ok(n - 0x61 + 26)
    else if 0x30 <= n <= 0x39 then Ok(n - 0x30 + 52)
    else if c == '+' then Ok(62)
    else if c == '/' then Ok(63)
    else Thrown
  }

  /** The characters JavaScript's \s matches. */
  predicate IsSpace(c: char) {
    var n := c as int;
    || 0x09 <= n <= 0x0d || n == 0x20 || n == 0xa0 || n == 0x1680 || 0x2000 <= n <= 0x200a
    || n == 0x2028 || n == 0x2029 || n == 0x202f || n == 0x205f || n == 0x3000 || n == 0xfeff
  }

  /** The alphabet is one to one, and none of its letters reads as padding or space. */
  lemma LetterRoundTrip(n: nat)
    requires n < 64
    ensures LetterValue(Letter(n)) == Ok(n) && Letter(n) != '=' && !IsSpace(Letter(n))
  {
    if n < 52 {
      assert Letter(n) as int == (if n < 26 then 0x41 + n else 0x61 + (n - 26));
    }
  }

  /** The alphabet of table 1 of RFC 4648. */
  lemma AlphabetIs(n: nat)
    requires n < 64
    ensures n < 26 ==> Letter(n) == "ABCDEFGHIJKLMNOPQRSTUVWXYZ"[n]
    ensures 26 <= n < 52 ==> Letter(n) == "abcdefghijklmnopqrstuvwxyz"[n - 26]
    ensures 52 <= n ==> Letter(n) == "0123456789+/"[n - 52]
  {
    if n < 26 { Capital(n); } else if n < 52 { Small(n - 26); }
  }

  lemma Capital(n: nat)
    requires n < 26
    ensures "ABCDEFGHIJKLMNOPQRSTUVWXYZ"[n] == (0x41 + n) as char
  {
  }

  lemma Small(n: nat)
    requires n < 26
    ensures "abcdefghijklmnopqrstuvwxyz"[n] == (0x61 + n) as char
  {
  }

  lemma SextetRange()
    ensures Pow2(SEXTET) == 64
  {
  }

  // ----- what encoding means -----

  /** One letter for every six bits. */
  ghost function Letters(bits: seq<bool>): (s: string)
    ensures |s| == |bits| / 6
  {
    SextetRange();
    seq(|bits| / 6, i requires 0 <= i < |bits| / 6 => Letter(MsbValue(bits[6 * i..6 * i + SEXTET])))
  }

  function Equals(n: nat): (s: string)
    ensures |s| == n
  {
    seq(n, i => '=')
  }

  /** The bits of the bytes in groups of six, the last group filled up with zeros, and padding to a
      whole number of four-letter groups. */
  ghost function Encoded(bytes: seq<Byte>): string {
    var bits := AllBits(bytes);
    Letters(bits + Falses((6 - |bits| % 6) % 6)) + Equals((3 - |bytes| % 3) % 3)
  }

  lemma EncodedLength(bytes: seq<Byte>)
    ensures |Encoded(bytes)| == 4 * ((|bytes| + 2) / 3)
  {
    hide AllBits, Letters;
    AllBitsLength(bytes);
    var n := |bytes|;
    if n % 3 == 0 {
      assert 8 * n == 24 * (n / 3);
    } else if n % 3 == 1 {
      assert 8 * n == 24 * (n / 3) + 8;
    } else {
      assert 8 * n == 24 * (n / 3) + 16;
    }
  }

  // ----- the encoding stream -----

  lemma LettersSnoc(bits: seq<bool>, b: seq<bool>)
    requires |bits| % 6 == 0 && |b| == SEXTET
    ensures MsbValue(b) < 64 && Letters(bits + b) == Letters(bits) + [Letter(MsbValue(b))]
  {
    hide MsbValue, Letter, Pow2;
    SextetRange();
    var all := bits + b;
    assert |all| / 6 == |bits| / 6 + 1;
    forall i | 0 <= i < |bits| / 6 ensures all[6 * i..6 * i + SEXTET] == bits[6 * i..6 * i + SEXTET] {
    }
    assert all[|bits|..|bits| + SEXTET] == b;
  }

  /** The stream's string and its buffer hold `bits` between them. */
  ghost predicate Written(base64: string, buffer: Word, buflen: nat, bits: seq<bool>) {
    && 6 * |base64| + buflen == |bits|
    && base64 == Letters(bits[..6 * |base64|])
    && MsbBits(buffer, buflen) == bits[6 * |base64|..]
  }

  lemma BufferByte(base64: string, buffer: Word, buflen: nat, bits: seq<bool>, b: Byte)
    requires Written(base64, buffer, buflen, bits) && buflen < 6
    ensures Written(base64, OrWord(ShiftLeft(buffer, WIDTH), b), buflen + 8, bits + MsbBits(b, WIDTH))
  {
    hide Letters, MsbBits, OrWord, ShiftLeft;
    assert Pow2(WIDTH) == 256;
    JoinMsb(buffer, buflen, b, WIDTH);
    assert (bits + MsbBits(b, WIDTH))[..6 * |base64|] == bits[..6 * |base64|];
    assert (bits + MsbBits(b, WIDTH))[6 * |base64|..] == bits[6 * |base64|..] + MsbBits(b, WIDTH);
  }

  lemma TakeSextet(base64: string, buffer: Word, buflen: nat, bits: seq<bool>)
    requires Written(base64, buffer, buflen, bits) && buflen >= 6
    ensures var n := LowBits(ShiftRight(buffer, buflen - 6), SEXTET);
      n < 64 && Written(base64 + [Letter(n)], buffer, buflen - 6, bits)
  {
    hide Letters, MsbBits, ShiftRight, LowBits, MsbValue, Letter, Pow2;
    SextetRange();
    TopMsb(buffer, buflen, SEXTET);
    var k := 6 * |base64|;
    LettersSnoc(bits[..k], bits[k..][..SEXTET]);
    assert bits[..k] + bits[k..][..SEXTET] == bits[..k + 6];
    assert bits[k..][SEXTET..] == bits[k + 6..];
  }

  /** The last, incomplete group, filled up. */
  lemma LastSextet(base64: string, buffer: Word, buflen: nat, bits: seq<bool>)
    requires Written(base64, buffer, buflen, bits) && 0 < buflen < 6
    ensures var n := LowBits(ShiftLeft(buffer, 6 - buflen), SEXTET);
      n < 64 && base64 + [Letter(n)] == Letters(bits + Falses(6 - buflen))
  {
    hide Letters, MsbBits, ShiftLeft, LowBits, MsbValue, Letter, Pow2;
    SextetRange();
    ShiftedMsb(buffer, buflen, 6 - buflen);
    var k := 6 * |base64|;
    LettersSnoc(bits[..k], bits[k..] + Falses(6 - buflen));
    assert bits[..k] + (bits[k..] + Falses(6 - buflen)) == bits + Falses(6 - buflen);
  }

  class Base64EncodeOutputStream {
    var buffer: Word
    var buflen: nat
    var length: nat
    var base64: string
    ghost var written: seq<Byte>

    ghost predicate Valid()
      reads this
    {
      length == |written| && buflen < 6 && Written(base64, buffer, buflen, AllBits(written))
    }

    constructor ()
      ensures Valid() && written == []
    {
      buffer, buflen, length, base64, written := 0, 0, 0, "", [];
    }

    /** Writes the low eight bits of `n`. */
    method WriteByte(n: nat)
      requires Valid()
      modifies this
      ensures Valid() && written == old(written) + [LowByte(n)]
    {
      hide AllBits, MsbBits, OrWord, ShiftLeft, ShiftRight, LowBits, Letter, Written, LowByte;
      BufferByte(base64, buffer, buflen, AllBits(written), LowByte(n));
      AllBitsSnoc(written, LowByte(n));
      written := written + [LowByte(n)];
      buffer := OrWord(ShiftLeft(buffer, WIDTH), LowByte(n));
      buflen := buflen + 8;
      length := length + 1;
      while buflen >= 6
        invariant length == |written| && Written(base64, buffer, buflen, AllBits(written))
        invariant written == old(written) + [LowByte(n)]
      {
        TakeSextet(base64, buffer, buflen, AllBits(written));
        base64 := base64 + [Letter(LowBits(ShiftRight(buffer, buflen - 6), SEXTET))];
        buflen := buflen - 6;
      }
    }

    /** Ends the text: it is then exactly the encoding of the bytes written. */
    method Flush()
      requires Valid()
      modifies this
      ensures written == old(written) && base64 == Encoded(written)
    {
      hide AllBits, MsbBits, ShiftLeft, ShiftRight, LowBits, Letter, Letters, Encoded, Falses, Equals, Pow2;
      AllBitsLength(written);
      FillLength(|written|, |base64|, buflen);
      ghost var bits := AllBits(written);
      ghost var fill, pad := if buflen == 0 then 0 else 6 - buflen, (3 - |written| % 3) % 3;
      EncodedParts(written, bits, fill, pad);
      if buflen > 0 {
        LastSextet(base64, buffer, buflen, bits);
        base64 := base64 + [Letter(LowBits(ShiftLeft(buffer, 6 - buflen), SEXTET))];
        buffer := 0;
        buflen := 0;
      } else {
        NoFill(0);
        assert bits + Falses(0) == bits[..6 * |base64|];
      }
      ghost var text := base64;
      NoPadding(text);
      if length % 3 != 0 {
        var padlen := 3 - length % 3;
        var i := 0;
        while i < padlen
          invariant 0 <= i <= padlen && base64 == text + Equals(i) && written == old(written) && length == old(length)
        {
          OneMoreEquals(i);
          base64 := base64 + "=";
          i := i + 1;
        }
      }
    }
  }

  lemma NoPadding(text: string)
    ensures text + Equals(0) == text
  {
  }

  lemma OneMoreEquals(n: nat)
    ensures Equals(n + 1) == Equals(n) + "="
  {
  }

  lemma FillLength(n: nat, letters: nat, buflen: nat)
    requires 6 * letters + buflen == 8 * n && buflen < 6
    ensures (6 - (8 * n) % 6) % 6 == if buflen == 0 then 0 else 6 - buflen
  {
  }

  lemma AllBitsSnoc(bytes: seq<Byte>, b: Byte)
    ensures AllBits(bytes + [b]) == AllBits(bytes) + MsbBits(b, WIDTH)
  {
    assert (bytes + [b])[..|bytes|] == bytes;
  }

  // ----- what decoding means -----

  function Prefixed(b: Byte, r: Result<seq<Byte>>): Result<seq<Byte>> {
    match r
    case Ok(s) => Ok([b] + s)
    case Thrown => Thrown
  }

  function OctetValue(bits: seq<bool>): Byte
    requires |bits| == WIDTH
  {
    assert Pow2(WIDTH) == 256;
    MsbValue(bits)
  }

  /** The bytes that reading until -1 gives, when `bits` are already buffered. */
  function Reads(text: string, bits: seq<bool>): Result<seq<Byte>>
    decreases |text|, |bits|
  {
    if |bits| >= 8 then Prefixed(OctetValue(bits[..WIDTH]), Reads(text, bits[WIDTH..]))
    else if text == "" then (if bits == [] then Ok([]) else Thrown)
    else if text[0] == '=' then Ok([])
    else if IsSpace(text[0]) then Reads(text[1..], bits)
    else match LetterValue(text[0])
      case Ok(n) => Reads(text[1..], bits + MsbBits(n, SEXTET))
      case Thrown => Thrown
  }

  lemma ReadLetter(n: nat, text: string, bits: seq<bool>)
    requires n < 64 && |bits| < 8
    ensures Reads([Letter(n)] + text, bits) == Reads(text, bits + MsbBits(n, SEXTET))
  {
    LetterRoundTrip(n);
    hide Letter, LetterValue, IsSpace;
    assert ([Letter(n)] + text)[1..] == text;
  }

  lemma LettersCons(bits: seq<bool>)
    requires |bits| % 6 == 0 && bits != []
    ensures MsbValue(bits[..SEXTET]) < 64 && Letters(bits) == [Letter(MsbValue(bits[..SEXTET]))] + Letters(bits[SEXTET..])
  {
    hide MsbValue, Letter;
    assert Pow2(SEXTET) == 64;
    forall i | 0 <= i < |bits| / 6 - 1
      ensures bits[6 * (i + 1)..6 * (i + 1) + SEXTET] == bits[SEXTET..][6 * i..6 * i + SEXTET] {
      SliceOfRest(bits, SEXTET, 6 * i, 6 * i + SEXTET);
    }
  }

  lemma SliceOfRest(bits: seq<bool>, k: nat, from: nat, upto: nat)
    requires from <= upto && k + upto <= |bits|
    ensures bits[k + from..k + upto] == bits[k..][from..upto]
  {
  }

  lemma {:induction false} ReadLetters(bits: seq<bool>, tail: string, pending: seq<bool>)
    requires |bits| % 6 == 0
    ensures Reads(Letters(bits) + tail, pending) == Reads(tail, pending + bits)
    decreases |bits|, |pending|
  {
    hide Letters, Letter, MsbBits, MsbValue, OctetValue, IsSpace, LetterValue;
    if bits == [] {
      assert Letters(bits) + tail == tail && pending + bits == pending;
    } else if |pending| >= 8 {
      ReadLetters(bits, tail, pending[WIDTH..]);
      assert (pending + bits)[WIDTH..] == pending[WIDTH..] + bits && (pending + bits)[..WIDTH] == pending[..WIDTH];
    } else {
      LettersCons(bits);
      var n := MsbValue(bits[..SEXTET]);
      MsbOfValue(bits[..SEXTET]);
      assert Letters(bits) + tail == [Letter(n)] + (Letters(bits[SEXTET..]) + tail);
      hide Reads;
      ReadLetter(n, Letters(bits[SEXTET..]) + tail, pending);
      ReadLetters(bits[SEXTET..], tail, pending + bits[..SEXTET]);
      assert pending + bits[..SEXTET] + bits[SEXTET..] == pending + bits;
    }
  }

  lemma {:induction false} AllBitsCons(bytes: seq<Byte>)
    requires bytes != []
    ensures AllBits(bytes) == MsbBits(bytes[0], WIDTH) + AllBits(bytes[1..])
  {
    hide MsbBits;
    var n := |bytes| - 1;
    if n > 0 {
      AllBitsCons(bytes[..n]);
      assert bytes[..n][1..] == bytes[1..][..n - 1];
    }
  }

  lemma {:induction false} ReadOctets(bytes: seq<Byte>, fill: seq<bool>, tail: string)
    requires |fill| < 8 && Reads(tail, fill) == Ok([])
    ensures Reads(tail, AllBits(bytes) + fill) == Ok(bytes)
  {
    hide MsbBits, MsbValue, LetterValue, IsSpace;
    if bytes == [] {
      assert AllBits(bytes) + fill == fill;
    } else {
      assert Pow2(WIDTH) == 256;
      var b := MsbBits(bytes[0], WIDTH);
      AllBitsCons(bytes);
      ValueOfMsb(bytes[0], WIDTH);
      ReadOctets(bytes[1..], fill, tail);
      hide AllBits;
      var all := AllBits(bytes) + fill;
      assert all == b + (AllBits(bytes[1..]) + fill);
      assert all[..WIDTH] == b && all[WIDTH..] == AllBits(bytes[1..]) + fill;
      assert [bytes[0]] + bytes[1..] == bytes;
    }
  }

  lemma ReadTail(padding: nat, fill: seq<bool>)
    requires |fill| < 8 && (padding == 0 ==> fill == [])
    ensures Reads(Equals(padding), fill) == Ok([])
  {
  }

  /** Decoding undoes encoding, for every sequence of bytes. */
  lemma DecodeEncoded(bytes: seq<Byte>)
    ensures Reads(Encoded(bytes), []) == Ok(bytes)
  {
    hide *;
    var bits := AllBits(bytes);
    AllBitsLength(bytes);
    var fill, pad := (6 - |bits| % 6) % 6, (3 - |bytes| % 3) % 3;
    FillAndPad(|bytes|);
    NoFill(fill);
    EncodedParts(bytes, bits, fill, pad);
    ReadTail(pad, Falses(fill));
    ReadOctets(bytes, Falses(fill), Equals(pad));
    ReadLetters(bits + Falses(fill), Equals(pad), []);
    assert [] + (bits + Falses(fill)) == bits + Falses(fill);
  }

  lemma FillAndPad(n: nat)
    ensures var fill, pad := (6 - (8 * n) % 6) % 6, (3 - n % 3) % 3;
      fill < 8 && (pad == 0 ==> fill == 0) && (8 * n + fill) % 6 == 0
  {
  }

  lemma NoFill(n: nat)
    ensures n == 0 ==> Falses(n) == []
  {
  }

  function WithoutSpace(text: string): string {
    if text == "" then ""
    else (if IsSpace(text[0]) then "" else [text[0]]) + WithoutSpace(text[1..])
  }

  /** White space anywhere in the text makes no difference. */
  lemma {:induction false} SpaceIsIgnored(text: string, bits: seq<bool>)
    ensures Reads(text, bits) == Reads(WithoutSpace(text), bits)
    decreases |text|, |bits|
  {
    hide MsbBits, OctetValue, LetterValue;
    assert !IsSpace('=');
    hide IsSpace;
    if |bits| >= 8 {
      SpaceIsIgnored(text, bits[WIDTH..]);
    } else if text != "" && text[0] != '=' {
      if IsSpace(text[0]) {
        SpaceIsIgnored(text[1..], bits);
        assert WithoutSpace(text) == WithoutSpace(text[1..]);
      } else {
        var t := WithoutSpace(text);
        assert t[0] == text[0] && t[1..] == WithoutSpace(text[1..]);
        if LetterValue(text[0]).Ok? {
          SpaceIsIgnored(text[1..], bits + MsbBits(LetterValue(text[0]).value, SEXTET));
        }
      }
    }
  }

  // ----- group by group -----

  lemma SplitByte(a: Byte)
    ensures var s := MsbBits(a, WIDTH);
      && MsbValue(s[..2]) == a / 64 && MsbValue(s[2..]) == a % 64
      && MsbValue(s[..4]) == a / 16 && MsbValue(s[4..]) == a % 16
      && MsbValue(s[..6]) == a / 4 && MsbValue(s[6..]) == a % 4
  {
    assert Pow2(8) == 256 && Pow2(6) == 64 && Pow2(4) == 16 && Pow2(2) == 4;
    MsbParts(a, WIDTH, 2);
    MsbParts(a, WIDTH, 4);
    MsbParts(a, WIDTH, 6);
  }

  lemma LettersStep(b: seq<bool>, rest: seq<bool>)
    requires |b| == 6 && |rest| % 6 == 0
    ensures MsbValue(b) < 64 && Letters(b + rest) == [Letter(MsbValue(b))] + Letters(rest)
  {
    LettersCons(b + rest);
    assert (b + rest)[..SEXTET] == b && (b + rest)[SEXTET..] == rest;
  }

  lemma NoLetters()
    ensures Letters([]) == ""
  {
  }

  lemma LettersTwo(b: seq<bool>, c: seq<bool>, rest: seq<bool>)
    requires |b| == |c| == 6 && |rest| % 6 == 0
    ensures MsbValue(b) < 64 && MsbValue(c) < 64
    ensures Letters(b + c + rest) == [Letter(MsbValue(b)), Letter(MsbValue(c))] + Letters(rest)
  {
    hide Letters, MsbValue, Letter;
    LettersStep(c, rest);
    LettersStep(b, c + rest);
    assert b + c + rest == b + (c + rest);
  }

  /** The bits of three bytes cut into sextets. */
  lemma CutBytes(s: seq<bool>, t: seq<bool>, u: seq<bool>, rest: seq<bool>)
    requires |s| == |t| == |u| == 8
    ensures s + t + u + rest == s[..6] + (s[6..] + t[..4]) + ((t[4..] + u[..2]) + u[2..] + rest)
  {
  }

  /** The values of the four sextets of three bytes. */
  lemma SextetValues(a: Byte, b: Byte, c: Byte)
    ensures var s, t, u := MsbBits(a, WIDTH), MsbBits(b, WIDTH), MsbBits(c, WIDTH);
      && MsbValue(s[..6]) == a / 4 && MsbValue(s[6..] + t[..4]) == a % 4 * 16 + b / 16
      && MsbValue(t[4..] + u[..2]) == b % 16 * 4 + c / 64 && MsbValue(u[2..]) == c % 64
  {
    var s, t, u := MsbBits(a, WIDTH), MsbBits(b, WIDTH), MsbBits(c, WIDTH);
    SplitByte(a);
    SplitByte(b);
    SplitByte(c);
    assert Pow2(4) == 16 && Pow2(2) == 4;
    hide MsbBits, MsbValue, Pow2;
    MsbValueConcat(s[6..], t[..4]);
    MsbValueConcat(t[4..], u[..2]);
  }

  /** The three bytes of a group as four sextets. */
  lemma FourSextets(a: Byte, b: Byte, c: Byte, rest: seq<bool>)
    requires |rest| % 6 == 0
    ensures Letters(MsbBits(a, WIDTH) + MsbBits(b, WIDTH) + MsbBits(c, WIDTH) + rest)
      == [Letter(a / 4), Letter(a % 4 * 16 + b / 16)] + ([Letter(b % 16 * 4 + c / 64), Letter(c % 64)] + Letters(rest))
  {
    var s, t, u := MsbBits(a, WIDTH), MsbBits(b, WIDTH), MsbBits(c, WIDTH);
    hide MsbBits, MsbValue, Letter, Letters;
    SextetValues(a, b, c);
    CutBytes(s, t, u, rest);
    LettersTwo(t[4..] + u[..2], u[2..], rest);
    LettersTwo(s[..6], s[6..] + t[..4], (t[4..] + u[..2]) + u[2..] + rest);
  }

  lemma FillWithZeros(n: nat)
    ensures MsbValue(Falses(n)) == 0
  {
    if n > 0 {
      FillWithZeros(n - 1);
      MsbValueSnoc(Falses(n - 1), false);
      assert Falses(n - 1) + [false] == Falses(n);
    } else {
      MsbValueSnoc([], false);
    }
  }

  lemma TwoSextets(a: Byte)
    ensures Letters(MsbBits(a, WIDTH) + Falses(4)) == [Letter(a / 4), Letter(a % 4 * 16)]
  {
    var s := MsbBits(a, WIDTH);
    SplitByte(a);
    FillWithZeros(4);
    assert Pow2(4) == 16;
    MsbValueConcat(s[6..], Falses(4));
    hide MsbBits, MsbValue, Letter, Letters, Pow2, Falses;
    NoLetters();
    LettersStep(s[6..] + Falses(4), []);
    LettersStep(s[..6], s[6..] + Falses(4));
    assert s[6..] + Falses(4) + [] == s[6..] + Falses(4);
    assert s + Falses(4) == s[..6] + (s[6..] + Falses(4));
  }

  lemma ThreeSextets(a: Byte, b: Byte)
    ensures Letters(MsbBits(a, WIDTH) + MsbBits(b, WIDTH) + Falses(2))
      == [Letter(a / 4), Letter(a % 4 * 16 + b / 16), Letter(b % 16 * 4)]
  {
    var s, t := MsbBits(a, WIDTH), MsbBits(b, WIDTH);
    SplitByte(b);
    FillWithZeros(2);
    assert Pow2(2) == 4;
    hide MsbBits, MsbValue, Letter, Letters, Pow2, Falses;
    SextetValues(a, b, 0);
    MsbValueConcat(t[4..], Falses(2));
    NoLetters();
    LettersStep(t[4..] + Falses(2), []);
    LettersTwo(s[..6], s[6..] + t[..4], t[4..] + Falses(2));
    assert t[4..] + Falses(2) + [] == t[4..] + Falses(2);
    assert s + t + Falses(2) == s[..6] + (s[6..] + t[..4]) + (t[4..] + Falses(2));
  }

  lemma AllBitsOf(a: Byte, b: Byte, c: Byte, rest: seq<Byte>)
    ensures AllBits([a]) == MsbBits(a, WIDTH) && AllBits([a, b]) == MsbBits(a, WIDTH) + MsbBits(b, WIDTH)
    ensures AllBits([a, b, c] + rest) == MsbBits(a, WIDTH) + MsbBits(b, WIDTH) + MsbBits(c, WIDTH) + AllBits(rest)
  {
    hide MsbBits;
    AllBitsCons([a]);
    assert [a][1..] == [];
    AllBitsCons([a, b]);
    assert [a, b][1..] == [b];
    AllBitsCons([b]);
    assert [b][1..] == [];
    var all := [a, b, c] + rest;
    AllBitsCons(all);
    AllBitsCons([b, c] + rest);
    AllBitsCons([c] + rest);
    assert all[1..] == [b, c] + rest && ([b, c] + rest)[1..] == [c] + rest && ([c] + rest)[1..] == rest;
    hide AllBits;
    assert MsbBits(a, WIDTH) + (MsbBits(b, WIDTH) + (MsbBits(c, WIDTH) + AllBits(rest)))
      == MsbBits(a, WIDTH) + MsbBits(b, WIDTH) + MsbBits(c, WIDTH) + AllBits(rest);
  }

  /** Encoding group by group, as section 4 of RFC 4648 describes it: three bytes become four letters, and a
      last group of one or two bytes is filled up with zero bits and padded. */
  lemma EncodedByGroups(a: Byte, b: Byte, c: Byte, rest: seq<Byte>)
    ensures Encoded([]) == ""
    ensures Encoded([a]) == [Letter(a / 4), Letter(a % 4 * 16), '=', '=']
    ensures Encoded([a, b]) == [Letter(a / 4), Letter(a % 4 * 16 + b / 16), Letter(b % 16 * 4), '=']
    ensures Encoded([a, b, c] + rest)
      == [Letter(a / 4), Letter(a % 4 * 16 + b / 16), Letter(b % 16 * 4 + c / 64), Letter(c % 64)] + Encoded(rest)
  {
    EncodedNone();
    EncodedOne(a);
    EncodedTwo(a, b);
    EncodedLong(a, b, c, rest);
  }

  lemma EncodedNone()
    ensures Encoded([]) == ""
  {
    assert AllBits([]) == [];
    hide Letters;
    NoLetters();
    assert Falses(0) == [] && Equals(0) == "";
  }

  /** Encoding in two steps: the letters, then the padding. */
  lemma EncodedParts(bytes: seq<Byte>, bits: seq<bool>, fill: nat, pad: nat)
    requires bits == AllBits(bytes) && fill == (6 - |bits| % 6) % 6 && pad == (3 - |bytes| % 3) % 3
    ensures Encoded(bytes) == Letters(bits + Falses(fill)) + Equals(pad)
  {
    hide Letters, Falses, Equals, AllBits;
  }

  lemma EncodedOne(a: Byte)
    ensures Encoded([a]) == [Letter(a / 4), Letter(a % 4 * 16), '=', '=']
  {
    AllBitsOf(a, 0, 0, []);
    assert Equals(2) == "==";
    hide *;
    TwoSextets(a);
    EncodedParts([a], MsbBits(a, WIDTH), 4, 2);
  }

  lemma EncodedTwo(a: Byte, b: Byte)
    ensures Encoded([a, b]) == [Letter(a / 4), Letter(a % 4 * 16 + b / 16), Letter(b % 16 * 4), '=']
  {
    AllBitsOf(a, b, 0, []);
    assert Equals(1) == "=";
    hide *;
    ThreeSextets(a, b);
    EncodedParts([a, b], MsbBits(a, WIDTH) + MsbBits(b, WIDTH), 2, 1);
  }

  lemma GroupLetters(a: Byte, b: Byte, c: Byte, bits: seq<bool>, fill: seq<bool>, all: seq<bool>)
    requires all == MsbBits(a, WIDTH) + MsbBits(b, WIDTH) + MsbBits(c, WIDTH) + bits && |bits + fill| % 6 == 0
    ensures Letters(all + fill)
      == [Letter(a / 4), Letter(a % 4 * 16 + b / 16)] + ([Letter(b % 16 * 4 + c / 64), Letter(c % 64)] + Letters(bits + fill))
  {
    hide MsbBits, Letters, Letter;
    FourSextets(a, b, c, bits + fill);
    assert all + fill == MsbBits(a, WIDTH) + MsbBits(b, WIDTH) + MsbBits(c, WIDTH) + (bits + fill);
  }

  lemma EncodedLong(a: Byte, b: Byte, c: Byte, rest: seq<Byte>)
    ensures Encoded([a, b, c] + rest)
      == [Letter(a / 4), Letter(a % 4 * 16 + b / 16), Letter(b % 16 * 4 + c / 64), Letter(c % 64)] + Encoded(rest)
  {
    var bits, all := AllBits(rest), AllBits([a, b, c] + rest);
    AllBitsOf(a, b, c, rest);
    AllBitsLength(rest);
    AllBitsLength([a, b, c] + rest);
    hide *;
    var fill, pad := (6 - |bits| % 6) % 6, (3 - |rest| % 3) % 3;
    SameFill(|bits|, |rest|);
    assert |all| == |bits| + 24 && |[a, b, c] + rest| == |rest| + 3;
    EncodedParts(rest, bits, fill, pad);
    EncodedParts([a, b, c] + rest, all, fill, pad);
    GroupLetters(a, b, c, bits, Falses(fill), all);
    GroupFront([Letter(a / 4), Letter(a % 4 * 16 + b / 16)], [Letter(b % 16 * 4 + c / 64), Letter(c % 64)],
               Letters(bits + Falses(fill)), Equals(pad));
  }

  lemma SameFill(n: nat, m: nat)
    ensures (n + 24) % 6 == n % 6 && (m + 3) % 3 == m % 3 && (n + (6 - n % 6) % 6) % 6 == 0
  {
  }

  lemma GroupFront(x: string, y: string, letters: string, pad: string)
    ensures x + (y + letters) + pad == x + y + (letters + pad)
  {
  }

  /** The eight bits that cross from one sextet into the next. */
  lemma OctetOf(p: nat, q: nat, k: nat, bits: seq<bool>)
    requires p < 64 && q < 64 && k <= 6 && 2 <= k
    requires bits == MsbBits(p, SEXTET)[6 - k..] + MsbBits(q, SEXTET)[..8 - k]
    ensures |bits| == 8 && OctetValue(bits) == p % Pow2(k) * Pow2(8 - k) + q / Pow2(k - 2)
  {
    SextetRange();
    MsbParts(p, SEXTET, 6 - k);
    MsbParts(q, SEXTET, 8 - k);
    hide MsbBits, MsbValue, Pow2;
    MsbValueConcat(MsbBits(p, SEXTET)[6 - k..], MsbBits(q, SEXTET)[..8 - k]);
    OctetIsMsb(bits);
  }

  lemma ReadOctet(text: string, bits: seq<bool>, rest: seq<bool>)
    requires |bits| == 8
    ensures Reads(text, bits + rest) == Prefixed(OctetValue(bits), Reads(text, rest))
  {
    assert (bits + rest)[..WIDTH] == bits && (bits + rest)[WIDTH..] == rest;
  }

  /** Two letters give a byte and leave four bits. */
  lemma ReadTwo(p: nat, q: nat, text: string)
    requires p < 64 && q < 64
    ensures Reads([Letter(p), Letter(q)] + text, []) == Prefixed(p * 4 + q / 16, Reads(text, MsbBits(q, SEXTET)[2..]))
  {
    var s, t := MsbBits(p, SEXTET), MsbBits(q, SEXTET);
    assert Pow2(6) == 64 && Pow2(2) == 4 && Pow2(4) == 16;
    SmallRemainder(p, 64);
    hide MsbBits, Reads, OctetValue, Letter, Pow2;
    ReadLetter(p, [Letter(q)] + text, []);
    assert [] + s == s;
    ReadLetter(q, text, s);
    assert [Letter(p)] + ([Letter(q)] + text) == [Letter(p), Letter(q)] + text;
    OctetOf(p, q, 6, s[0..] + t[..2]);
    assert s + t == (s[0..] + t[..2]) + t[2..];
    ReadOctet(text, s[0..] + t[..2], t[2..]);
  }

  /** A third letter completes the next byte and leaves two bits. */
  lemma ReadThird(q: nat, r: nat, text: string)
    requires q < 64 && r < 64
    ensures Reads([Letter(r)] + text, MsbBits(q, SEXTET)[2..]) == Prefixed(q % 16 * 16 + r / 4, Reads(text, MsbBits(r, SEXTET)[4..]))
  {
    var t, u := MsbBits(q, SEXTET), MsbBits(r, SEXTET);
    assert Pow2(4) == 16 && Pow2(2) == 4;
    hide MsbBits, Reads, OctetValue, Letter, Pow2;
    ReadLetter(r, text, t[2..]);
    OctetOf(q, r, 4, t[2..] + u[..4]);
    assert t[2..] + u == (t[2..] + u[..4]) + u[4..];
    ReadOctet(text, t[2..] + u[..4], u[4..]);
  }

  /** A fourth letter completes the third byte and leaves nothing. */
  lemma ReadFourth(r: nat, s: nat, text: string)
    requires r < 64 && s < 64
    ensures Reads([Letter(s)] + text, MsbBits(r, SEXTET)[4..]) == Prefixed(r % 4 * 64 + s, Reads(text, []))
  {
    var u, v := MsbBits(r, SEXTET), MsbBits(s, SEXTET);
    assert Pow2(2) == 4 && Pow2(6) == 64 && Pow2(0) == 1;
    hide MsbBits, Reads, OctetValue, Letter, Pow2;
    ReadLetter(s, text, u[4..]);
    OctetOf(r, s, 2, u[4..] + v[..6]);
    assert u[4..] + v == (u[4..] + v[..6]) + [];
    ReadOctet(text, u[4..] + v[..6], []);
  }

  /** Decoding group by group: four letters become three bytes. */
  lemma ReadsGroup(p: nat, q: nat, r: nat, s: nat, text: string)
    requires p < 64 && q < 64 && r < 64 && s < 64
    ensures Reads([Letter(p), Letter(q), Letter(r), Letter(s)] + text, [])
      == Prefixed(p * 4 + q / 16, Prefixed(q % 16 * 16 + r / 4, Prefixed(r % 4 * 64 + s, Reads(text, []))))
  {
    hide Reads, Letter, MsbBits;
    ReadTwo(p, q, [Letter(r)] + ([Letter(s)] + text));
    ReadThird(q, r, [Letter(s)] + text);
    ReadFourth(r, s, text);
    assert [Letter(p), Letter(q), Letter(r), Letter(s)] + text == [Letter(p), Letter(q)] + ([Letter(r)] + ([Letter(s)] + text));
  }

  /** What ends the text: nothing more, padding, or a character that is no letter. */
  lemma ReadsStop(text: string, bits: seq<bool>)
    requires |bits| < 8 && (text == "" || text[0] == '=' || (!IsSpace(text[0]) && LetterValue(text[0]).Thrown?))
    ensures Reads(text, bits) ==
      if text == "" then (if bits == [] then Ok([]) else Thrown) else if text[0] == '=' then Ok([]) else Thrown
  {
    assert LetterValue('=').Thrown?;
  }

  lemma PrefixedLast(a: Byte, b: Byte)
    ensures Prefixed(a, Ok([])) == Ok([a]) && Prefixed(a, Prefixed(b, Ok([]))) == Ok([a, b])
  {
    assert [a] + [] == [a] && [a] + ([b] + []) == [a, b];
  }

  /** An unfinished group: after `=` its whole bytes count and the bits left over are dropped; without padding
      an unfinished group throws, and so does a character that is neither a letter nor white space. */
  lemma ReadsEnd(p: nat, q: nat, r: nat, text: string)
    requires p < 64 && q < 64 && r < 64
    requires text == "" || text[0] == '=' || (!IsSpace(text[0]) && LetterValue(text[0]).Thrown?)
    ensures var padded := text != "" && text[0] == '=';
      && Reads(text, []) == (if padded || text == "" then Ok([]) else Thrown)
      && Reads([Letter(p)] + text, []) == (if padded then Ok([]) else Thrown)
      && Reads([Letter(p), Letter(q)] + text, []) == (if padded then Ok([p * 4 + q / 16]) else Thrown)
      && Reads([Letter(p), Letter(q), Letter(r)] + text, [])
           == (if padded then Ok([p * 4 + q / 16, q % 16 * 16 + r / 4]) else Thrown)
  {
    hide Reads, Letter, MsbBits, IsSpace, LetterValue;
    ReadsStop(text, []);
    ReadLetter(p, text, []);
    assert [] + MsbBits(p, SEXTET) == MsbBits(p, SEXTET);
    ReadsStop(text, MsbBits(p, SEXTET));
    ReadTwo(p, q, text);
    ReadsStop(text, MsbBits(q, SEXTET)[2..]);
    ReadTwo(p, q, [Letter(r)] + text);
    ReadThird(q, r, text);
    ReadsStop(text, MsbBits(r, SEXTET)[4..]);
    PrefixedLast(p * 4 + q / 16, q % 16 * 16 + r / 4);
    assert [Letter(p), Letter(q), Letter(r)] + text == [Letter(p), Letter(q)] + ([Letter(r)] + text);
  }

  // ----- the decoding stream -----

  class Base64DecodeInputStream {
    const str: string
    var pos: nat
    var buffer: Word
    var buflen: nat

    ghost predicate Valid()
      reads this
    {
      pos <= |str| && buflen < 8
    }

    /** What reading on until -1 will give. */
    ghost function Remaining(): Result<seq<Byte>>
      requires pos <= |str|
      reads this
    {
      Reads(str[pos..], MsbBits(buffer, buflen))
    }

    constructor (text: string)
      ensures Valid() && Remaining() == Reads(text, []) && str == text
    {
      str, pos, buffer, buflen := text, 0, 0, 0;
      new;
      assert str[0..] == text && MsbBits(0, 0) == [];
    }

    /** The next byte, or None where the script returns -1. */
    method Read() returns (r: Result<Option<Byte>>)
      requires Valid()
      modifies this
      ensures match r
        case Thrown => old(Remaining()) == Thrown
        case Ok(None) => old(Remaining()) == Ok([])
        case Ok(Some(b)) => Valid() && pos > old(pos) && old(Remaining()) == Prefixed(b, Remaining())
    {
      hide MsbBits, OrWord, ShiftLeft, ShiftRight, LowBits, LetterValue, IsSpace, MsbValue, OctetValue;
      while buflen < 8
        invariant old(pos) <= pos <= |str| && buflen < 14 && (buflen < 8 || pos > old(pos))
        invariant Remaining() == old(Remaining())
        decreases |str| - pos
      {
        if pos >= |str| {
          if buflen == 0 {
            return Ok(None);
          }
          return Thrown;
        }
        var c := str[pos];
        assert str[pos..][1..] == str[pos + 1..];
        pos := pos + 1;
        if c == '=' {
          buflen := 0;
          return Ok(None);
        } else if IsSpace(c) {
          continue;
        }
        var v := LetterValue(c);
        if v.Thrown? {
          return Thrown;
        }
        assert Pow2(SEXTET) == 64;
        JoinMsb(buffer, buflen, v.value, SEXTET);
        buffer := OrWord(ShiftLeft(buffer, SEXTET), v.value);
        buflen := buflen + 6;
      }
      TopMsb(buffer, buflen, WIDTH);
      OctetIsMsb(MsbBits(buffer, buflen)[..WIDTH]);
      var n: Byte := LowBits(ShiftRight(buffer, buflen - 8), WIDTH);
      buflen := buflen - 8;
      return Ok(Some(n));
    }
  }

  lemma OctetIsMsb(bits: seq<bool>)
    requires |bits| == WIDTH
    ensures OctetValue(bits) == MsbValue(bits) < 256
  {
  }

  /** Writes bytes one by one and ends the text. */
  method EncodeBytes(bytes: seq<Byte>) returns (text: string)
    ensures text == Encoded(bytes)
    ensures |text| == 4 * ((|bytes| + 2) / 3)
    ensures Reads(text, []) == Ok(bytes)
  {
    hide Written, Encoded, Reads;
    var base64 := new Base64EncodeOutputStream();
    var i := 0;
    while i < |bytes|
      invariant 0 <= i <= |bytes| && fresh(base64) && base64.Valid() && base64.written == bytes[..i]
    {
      ByteIsLow(bytes[i]);
      base64.WriteByte(bytes[i]);
      i := i + 1;
    }
    assert bytes[..i] == bytes;
    base64.Flush();
    text := base64.base64;
    EncodedLength(bytes);
    DecodeEncoded(bytes);
  }

  lemma ByteIsLow(b: Byte)
    ensures LowByte(b) == b
  {
    assert Pow2(8) == 256;
    FromToBits(b, WIDTH);
  }

  /** Reads bytes until -1. */
  method DecodeText(text: string) returns (r: Result<seq<Byte>>)
    ensures r == Reads(text, [])
  {
    hide Reads, MsbBits;
    var stream := new Base64DecodeInputStream(text);
    var bytes: seq<Byte> := [];
    JoinedPrefixed([], 0, stream.Remaining());
    while true
      invariant fresh(stream) && stream.Valid() && Reads(text, []) == Joined(bytes, stream.Remaining())
      decreases |stream.str| - stream.pos
    {
      JoinedPrefixed(bytes, 0, Thrown);
      var next := stream.Read();
      match next {
        case Thrown => return Thrown;
        case Ok(None) => return Ok(bytes);
        case Ok(Some(b)) =>
          JoinedPrefixed(bytes, b, stream.Remaining());
          bytes := bytes + [b];
      }
    }
  }

  function Joined(s: seq<Byte>, r: Result<seq<Byte>>): Result<seq<Byte>> {
    match r
    case Ok(t) => Ok(s + t)
    case Thrown => Thrown
  }

  lemma JoinedPrefixed(s: seq<Byte>, b: Byte, r: Result<seq<Byte>>)
    ensures Joined(s, Prefixed(b, r)) == Joined(s + [b], r) && Joined([], r) == r && Joined(s, Ok([])) == Ok(s)
  {
    assert s + [] == s;
    if r.Ok? {
      assert [] + r.value == r.value;
      assert s + ([b] + r.value) == s + [b] + r.value;
    }
  }
}
