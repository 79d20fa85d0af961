/** The text encodings of a provisioning message: hexadecimal for the header, Base64 for the payload. */
module Codec {
  import opened Bytes
  import opened Wrappers

  // --- Hexadecimal, section 8 of RFC 4648 ---

  function HexDigit(v: nat): char
    requires v < 16
  {
    if v < 10 then ('0' as int + v) as char else ('A' as int + (v - 10)) as char
  }

  /** `%02X` of each byte. */
  function HexText(s: seq<Byte>): (t: string)
    ensures |t| == 2 * |s|
  {
    if s == [] then "" else HexText(s[..|s| - 1]) + [HexDigit(s[|s| - 1] / 16), HexDigit(s[|s| - 1] % 16)]
  }

  /** The value of a digit, in either case; 16 for anything else. */
  function HexValue(c: char): nat {
    if '0' <= c <= '9' then c as int - '0' as int
    else if 'A' <= c <= 'F' then c as int - 'A' as int + 10
    else if 'a' <= c <= 'f' then c as int - 'a' as int + 10
    else 16
  }

  function HexBytes(t: string): Option<seq<Byte>>
  {
    if t == [] then Some([])
    else if |t| == 1 then None
    else
      var n := |t| - 2;
      var hi, lo := HexValue(t[n]), HexValue(t[n + 1]);
      match HexBytes(t[..n])
      case None => None
      case Some(s) => if hi < 16 && lo < 16 then Some(s + [16 * hi + lo]) else None
  }

  lemma HexBytesLength(t: string)
    ensures HexBytes(t).Some? ==> 2 * |HexBytes(t).value| == |t|
  {
  }

  lemma HexDigitValue(v: nat)
    requires v < 16
    ensures HexValue(HexDigit(v)) == v
  {
  }

  lemma HexBytesStep(t: string, s: seq<Byte>, b: Byte)
    requires HexBytes(t) == Some(s)
    ensures HexBytes(t + [HexDigit(b / 16), HexDigit(b % 16)]) == Some(s + [b])
  {
    HexDigitValue(b / 16);
    HexDigitValue(b % 16);
    var u := t + [HexDigit(b / 16), HexDigit(b % 16)];
    assert u[..|u| - 2] == t;
  }

  lemma {:induction false} HexRoundTrip(s: seq<Byte>, t: string)
    requires t == HexText(s)
    ensures HexBytes(t) == Some(s)
    decreases |s|
  {
    if s != [] {
      var init, last := s[..|s| - 1], s[|s| - 1];
      HexRoundTrip(init, HexText(init));
      HexBytesStep(HexText(init), init, last);
      assert s == init + [last];
    }
  }

  const HEX_ALPHABET: string := "0123456789ABCDEF"

  /** Two digits a byte, the upper half first. */
  lemma {:induction false} HexTextAt(s: seq<Byte>, i: nat)
    requires i < |s|
    ensures HexText(s)[2 * i] == HEX_ALPHABET[s[i] / 16] && HexText(s)[2 * i + 1] == HEX_ALPHABET[s[i] % 16]
    decreases |s|
  {
    if i < |s| - 1 {
      HexTextAt(s[..|s| - 1], i);
    }
  }

  // --- Base64, section 4 of RFC 4648: the whole message as one stream of bits ---

  function Char64(v: nat): char
    requires v < 64
  {
    if v < 26 then ('A' as int + v) as char
    else if v < 52 then ('a' as int + (v - 26)) as char
    else if v < 62 then ('0' as int + (v - 52)) as char
    else if v == 62 then '+' else '/'
  }

  /** Bit `k` of a byte, least significant bit first. */
  function Bit(b: nat, k: nat): (v: nat)
    ensures v < 2
  {
    if k == 0 then b % 2 else Bit(b / 2, k - 1)
  }

  function ByteOr0(m: seq<Byte>, i: nat): Byte {
    if i < |m| then m[i] else 0
  }

  /** Bit `i` of the message, most significant bit of each byte first; zero bits follow the message. */
  function BitAt(m: seq<Byte>, i: nat): (v: nat)
    ensures v < 2
  {
    if m == [] then 0 else if i < 8 then Bit(m[0], 7 - i) else BitAt(m[1..], i - 8)
  }

  /** The value of `n` bits of the message from bit `i`. */
  function Bits(m: seq<Byte>, i: nat, n: nat): nat {
    if n == 0 then 0 else 2 * Bits(m, i, n - 1) + BitAt(m, i + n - 1)
  }

  lemma SixBits(m: seq<Byte>, i: nat)
    ensures Bits(m, i, 6) ==
            32 * BitAt(m, i) + 16 * BitAt(m, i + 1) + 8 * BitAt(m, i + 2)
            + 4 * BitAt(m, i + 3) + 2 * BitAt(m, i + 4) + BitAt(m, i + 5)
  {
    assert Bits(m, i, 2) == 2 * Bits(m, i, 1) + BitAt(m, i + 1);
    assert Bits(m, i, 4) == 2 * Bits(m, i, 3) + BitAt(m, i + 3) && Bits(m, i, 3) == 2 * Bits(m, i, 2) + BitAt(m, i + 2);
    assert Bits(m, i, 6) == 2 * Bits(m, i, 5) + BitAt(m, i + 5) && Bits(m, i, 5) == 2 * Bits(m, i, 4) + BitAt(m, i + 4);
  }

  /** The `k`-th group of six bits. */
  function Sextet(m: seq<Byte>, k: nat): (v: nat)
    ensures v < 64
  {
    SixBits(m, 6 * k);
    Bits(m, 6 * k, 6)
  }

  /** One character per group that holds message bits, padded to a multiple of four. */
  function Base64Text(m: seq<Byte>): (t: string)
    ensures |t| == 4 * ((|m| + 2) / 3)
  {
    seq(4 * ((|m| + 2) / 3), k requires 0 <= k => if 6 * k < 8 * |m| then Char64(Sextet(m, k)) else '=')
  }

  // --- Base64, three bytes at a time, as OpenSSL's EVP_EncodeBlock and EVP_DecodeBlock are called ---

  /** The six bits of character `r`. */
  function Group(b0: Byte, b1: Byte, b2: Byte, r: nat): (v: nat)
    ensures v < 64
  {
    if r == 0 then b0 / 4
    else if r == 1 then b0 % 4 * 16 + b1 / 16
    else if r == 2 then b1 % 16 * 4 + b2 / 64
    else b2 % 64
  }

  function BlockChar(b: seq<Byte>, r: nat): char {
    if r <= |b| then Char64(Group(ByteOr0(b, 0), ByteOr0(b, 1), ByteOr0(b, 2), r)) else '='
  }

  function EncodeBlock(b: seq<Byte>): (t: string)
    requires 1 <= |b| <= 3
    ensures |t| == 4
  {
    [BlockChar(b, 0), BlockChar(b, 1), BlockChar(b, 2), BlockChar(b, 3)]
  }

  /** The value of a character; '=' counts as zero, anything else outside the alphabet is 64. */
  function Value64(c: char): nat {
    if 'A' <= c <= 'Z' then c as int - 'A' as int
    else if 'a' <= c <= 'z' then c as int - 'a' as int + 26
    else if '0' <= c <= '9' then c as int - '0' as int + 52
    else if c == '+' then 62 else if c == '/' then 63
    else if c == '=' then 0 else 64
  }

  /** What a four-character block writes to the three-byte buffer: nothing if a character is invalid. */
  function DecodeBlock(t: string, buffer: seq<Byte>): (b: seq<Byte>)
    requires |t| == 4 && |buffer| == 3
    ensures |b| == 3
  {
    var v0, v1, v2, v3 := Value64(t[0]), Value64(t[1]), Value64(t[2]), Value64(t[3]);
    if v0 < 64 && v1 < 64 && v2 < 64 && v3 < 64 then
      [v0 * 4 + v1 / 16, v1 % 16 * 16 + v2 / 4, v2 % 4 * 64 + v3]
    else buffer
  }

  // --- The two agree ---

  lemma BitValues(b: Byte)
    ensures Bit(b, 0) == b % 2 && Bit(b, 1) == b / 2 % 2 && Bit(b, 2) == b / 4 % 2 && Bit(b, 3) == b / 8 % 2
    ensures Bit(b, 4) == b / 16 % 2 && Bit(b, 5) == b / 32 % 2 && Bit(b, 6) == b / 64 % 2 && Bit(b, 7) == b / 128 % 2
  {
    assert b / 128 == b / 64 / 2 && b / 64 == b / 32 / 2 && b / 32 == b / 16 / 2;
    assert b / 16 == b / 8 / 2 && b / 8 == b / 4 / 2 && b / 4 == b / 2 / 2;
    assert Bit(b, 3) == Bit(b / 2, 2) == Bit(b / 4, 1) == Bit(b / 8, 0);
    assert Bit(b, 7) == Bit(b / 2, 6) == Bit(b / 4, 5) == Bit(b / 8, 4);
    assert Bit(b, 6) == Bit(b / 2, 5) == Bit(b / 4, 4) == Bit(b / 8, 3);
    assert Bit(b, 5) == Bit(b / 2, 4) == Bit(b / 4, 3) == Bit(b / 8, 2);
    assert Bit(b, 4) == Bit(b / 2, 3) == Bit(b / 4, 2) == Bit(b / 8, 1);
    assert Bit(b / 8, 4) == Bit(b / 16, 3) == Bit(b / 32, 2) == Bit(b / 64, 1) == Bit(b / 128, 0);
    assert Bit(b / 8, 3) == Bit(b / 16, 2) == Bit(b / 32, 1) == Bit(b / 64, 0);
    assert Bit(b / 8, 2) == Bit(b / 16, 1) == Bit(b / 32, 0);
    assert Bit(b / 8, 1) == Bit(b / 16, 0);
  }

  lemma ByteQuotients(b: Byte)
    ensures b / 128 == b / 128 % 2
    ensures b / 64 == 2 * (b / 128) + b / 64 % 2
    ensures b / 32 == 2 * (b / 64) + b / 32 % 2
    ensures b / 16 == 2 * (b / 32) + b / 16 % 2
    ensures b / 8 == 2 * (b / 16) + b / 8 % 2
    ensures b / 4 == 2 * (b / 8) + b / 4 % 2
    ensures b / 2 == 2 * (b / 4) + b / 2 % 2
    ensures b == 2 * (b / 2) + b % 2
  {
    assert b / 128 == b / 64 / 2 && b / 64 == b / 32 / 2 && b / 32 == b / 16 / 2;
    assert b / 16 == b / 8 / 2 && b / 8 == b / 4 / 2 && b / 4 == b / 2 / 2;
  }

  /** A byte halved seven times: each step splits off one bit. */
  lemma ByteHalves(b: Byte)
    ensures b == 2 * (b / 2) + Bit(b, 0) && b / 2 == 2 * (b / 4) + Bit(b, 1) && b / 4 == 2 * (b / 8) + Bit(b, 2)
    ensures b / 8 == 2 * (b / 16) + Bit(b, 3) && b / 16 == 2 * (b / 32) + Bit(b, 4)
    ensures b / 32 == 2 * (b / 64) + Bit(b, 5) && b / 64 == 2 * (b / 128) + Bit(b, 6) && b / 128 == Bit(b, 7)
  {
    BitValues(b);
    ByteQuotients(b);
  }

  /** The runs of bits of a byte that the four characters of a block use. */
  lemma ByteRuns(b: Byte)
    ensures 32 * Bit(b, 7) + 16 * Bit(b, 6) + 8 * Bit(b, 5) + 4 * Bit(b, 4) + 2 * Bit(b, 3) + Bit(b, 2) == b / 4
    ensures 2 * Bit(b, 1) + Bit(b, 0) == b % 4
    ensures 8 * Bit(b, 7) + 4 * Bit(b, 6) + 2 * Bit(b, 5) + Bit(b, 4) == b / 16
    ensures 8 * Bit(b, 3) + 4 * Bit(b, 2) + 2 * Bit(b, 1) + Bit(b, 0) == b % 16
    ensures 2 * Bit(b, 7) + Bit(b, 6) == b / 64
    ensures 32 * Bit(b, 5) + 16 * Bit(b, 4) + 8 * Bit(b, 3) + 4 * Bit(b, 2) + 2 * Bit(b, 1) + Bit(b, 0) == b % 64
  {
    ByteHalves(b);
  }

  lemma {:induction false} BitOfZero(k: nat)
    ensures Bit(0, k) == 0
  {
    if k > 0 {
      BitOfZero(k - 1);
    }
  }

  lemma {:induction false} BitAtByte(m: seq<Byte>, n: nat, t: nat, i: nat)
    requires t < 8 && i == 8 * n + t
    ensures BitAt(m, i) == Bit(ByteOr0(m, n), 7 - t)
    decreases n
  {
    if m == [] {
      BitOfZero(7 - t);
    } else if n > 0 {
      BitAtByte(m[1..], n - 1, t, i - 8);
      assert ByteOr0(m[1..], n - 1) == ByteOr0(m, n);
    }
  }

  /** Bit `t` of byte `j` of block `q`. */
  lemma BlockBit(m: seq<Byte>, q: nat, j: nat, t: nat, i: nat)
    requires j < 3 && t < 8 && i == 24 * q + 8 * j + t
    ensures BitAt(m, i) == Bit(ByteOr0(m, 3 * q + j), 7 - t)
  {
    BitAtByte(m, 3 * q + j, t, i);
  }

  /** Six consecutive bits, each found in its byte. */
  lemma SixBitsAre(m: seq<Byte>, i: nat, x0: nat, x1: nat, x2: nat, x3: nat, x4: nat, x5: nat)
    requires BitAt(m, i) == x0 && BitAt(m, i + 1) == x1 && BitAt(m, i + 2) == x2
    requires BitAt(m, i + 3) == x3 && BitAt(m, i + 4) == x4 && BitAt(m, i + 5) == x5
    ensures Bits(m, i, 6) == 32 * x0 + 16 * x1 + 8 * x2 + 4 * x3 + 2 * x4 + x5
  {
    SixBits(m, i);
  }

  lemma BlockSextet0(m: seq<Byte>, q: nat, i: nat)
    requires i == 24 * q
    ensures Bits(m, i, 6) == ByteOr0(m, 3 * q) / 4
  {
    var b0 := ByteOr0(m, 3 * q);
    BlockBit(m, q, 0, 0, i); BlockBit(m, q, 0, 1, i + 1); BlockBit(m, q, 0, 2, i + 2);
    BlockBit(m, q, 0, 3, i + 3); BlockBit(m, q, 0, 4, i + 4); BlockBit(m, q, 0, 5, i + 5);
    SixBitsAre(m, i, Bit(b0, 7), Bit(b0, 6), Bit(b0, 5), Bit(b0, 4), Bit(b0, 3), Bit(b0, 2));
    ByteRuns(b0);
  }

  lemma BlockSextet1(m: seq<Byte>, q: nat, i: nat)
    requires i == 24 * q + 6
    ensures Bits(m, i, 6) == ByteOr0(m, 3 * q) % 4 * 16 + ByteOr0(m, 3 * q + 1) / 16
  {
    var b0, b1 := ByteOr0(m, 3 * q), ByteOr0(m, 3 * q + 1);
    BlockBit(m, q, 0, 6, i); BlockBit(m, q, 0, 7, i + 1); BlockBit(m, q, 1, 0, i + 2);
    BlockBit(m, q, 1, 1, i + 3); BlockBit(m, q, 1, 2, i + 4); BlockBit(m, q, 1, 3, i + 5);
    SixBitsAre(m, i, Bit(b0, 1), Bit(b0, 0), Bit(b1, 7), Bit(b1, 6), Bit(b1, 5), Bit(b1, 4));
    ByteRuns(b0);
    ByteRuns(b1);
  }

  lemma BlockSextet2(m: seq<Byte>, q: nat, i: nat)
    requires i == 24 * q + 12
    ensures Bits(m, i, 6) == ByteOr0(m, 3 * q + 1) % 16 * 4 + ByteOr0(m, 3 * q + 2) / 64
  {
    var b1, b2 := ByteOr0(m, 3 * q + 1), ByteOr0(m, 3 * q + 2);
    BlockBit(m, q, 1, 4, i); BlockBit(m, q, 1, 5, i + 1); BlockBit(m, q, 1, 6, i + 2);
    BlockBit(m, q, 1, 7, i + 3); BlockBit(m, q, 2, 0, i + 4); BlockBit(m, q, 2, 1, i + 5);
    SixBitsAre(m, i, Bit(b1, 3), Bit(b1, 2), Bit(b1, 1), Bit(b1, 0), Bit(b2, 7), Bit(b2, 6));
    ByteRuns(b1);
    ByteRuns(b2);
  }

  lemma BlockSextet3(m: seq<Byte>, q: nat, i: nat)
    requires i == 24 * q + 18
    ensures Bits(m, i, 6) == ByteOr0(m, 3 * q + 2) % 64
  {
    var b2 := ByteOr0(m, 3 * q + 2);
    BlockBit(m, q, 2, 2, i); BlockBit(m, q, 2, 3, i + 1); BlockBit(m, q, 2, 4, i + 2);
    BlockBit(m, q, 2, 5, i + 3); BlockBit(m, q, 2, 6, i + 4); BlockBit(m, q, 2, 7, i + 5);
    SixBitsAre(m, i, Bit(b2, 5), Bit(b2, 4), Bit(b2, 3), Bit(b2, 2), Bit(b2, 1), Bit(b2, 0));
    ByteRuns(b2);
  }

  /** The six bits that character `r` of block `q` carries. */
  lemma BlockSextet(m: seq<Byte>, q: nat, r: nat)
    requires r < 4
    ensures Sextet(m, 4 * q + r) ==
            Group(ByteOr0(m, 3 * q), ByteOr0(m, 3 * q + 1), ByteOr0(m, 3 * q + 2), r)
  {
    if r == 0 {
      BlockSextet0(m, q, 24 * q);
    } else if r == 1 {
      BlockSextet1(m, q, 24 * q + 6);
    } else if r == 2 {
      BlockSextet2(m, q, 24 * q + 12);
    } else {
      BlockSextet3(m, q, 24 * q + 18);
    }
  }

  /** The bytes of block `q`: three, or what is left. */
  function BlockOf(m: seq<Byte>, q: nat): (b: seq<Byte>)
    requires 3 * q < |m|
    ensures 1 <= |b| <= 3
  {
    m[3 * q..if 3 * q + 3 <= |m| then 3 * q + 3 else |m|]
  }

  lemma BlockCharAt(m: seq<Byte>, q: nat, r: nat)
    requires 3 * q < |m| && r < 4
    ensures 4 * q + r < |Base64Text(m)| && Base64Text(m)[4 * q + r] == BlockChar(BlockOf(m, q), r)
  {
    var b := BlockOf(m, q);
    BlockSextet(m, q, r);
    assert ByteOr0(b, 0) == ByteOr0(m, 3 * q) && ByteOr0(b, 1) == ByteOr0(m, 3 * q + 1);
    assert ByteOr0(b, 2) == ByteOr0(m, 3 * q + 2);
    assert 6 * (4 * q + r) < 8 * |m| <==> r <= |b|;
  }

  lemma Base64Length(m: seq<Byte>)
    ensures |Base64Text(m)| == 4 * (|m| / 3) + if |m| % 3 > 0 then 4 else 0
  {
  }

  /** Block `q` of the whole-message encoding is the encoding of block `q` of the message. */
  lemma EncodeBlockAt(m: seq<Byte>, q: nat)
    requires 3 * q < |m|
    ensures 4 * q + 4 <= |Base64Text(m)|
    ensures Base64Text(m)[4 * q..4 * q + 4] == EncodeBlock(BlockOf(m, q))
  {
    BlockCharAt(m, q, 0);
    BlockCharAt(m, q, 1);
    BlockCharAt(m, q, 2);
    BlockCharAt(m, q, 3);
  }

  lemma ValueOfChar(v: nat)
    requires v < 64
    ensures Value64(Char64(v)) == v && Char64(v) != '='
  {
  }

  lemma ValueOfBlockChar(b: seq<Byte>, r: nat)
    requires 1 <= |b| <= 3 && r < 4
    ensures Value64(BlockChar(b, r)) == Group(ByteOr0(b, 0), ByteOr0(b, 1), ByteOr0(b, 2), r)
    ensures BlockChar(b, r) == '=' <==> |b| < r
  {
    ValueOfChar(Group(ByteOr0(b, 0), ByteOr0(b, 1), ByteOr0(b, 2), r));
  }

  /** The three bytes a decoder assembles from the four groups of a block. */
  lemma Reassembled(b0: Byte, b1: Byte, b2: Byte)
    ensures Group(b0, b1, b2, 0) * 4 + Group(b0, b1, b2, 1) / 16 == b0
    ensures Group(b0, b1, b2, 1) % 16 * 16 + Group(b0, b1, b2, 2) / 4 == b1
    ensures Group(b0, b1, b2, 2) % 4 * 64 + Group(b0, b1, b2, 3) == b2
  {
    assert (b0 % 4 * 16 + b1 / 16) / 16 == b0 % 4 && (b0 % 4 * 16 + b1 / 16) % 16 == b1 / 16;
    assert (b1 % 16 * 4 + b2 / 64) / 4 == b1 % 16 && (b1 % 16 * 4 + b2 / 64) % 4 == b2 / 64;
  }

  /** Decoding an encoded block gives its bytes, and zeros for the missing ones. */
  lemma DecodeEncodedBlock(b: seq<Byte>, buffer: seq<Byte>)
    requires 1 <= |b| <= 3 && |buffer| == 3
    ensures DecodeBlock(EncodeBlock(b), buffer) == b + Zeros(3 - |b|)
  {
    ValueOfBlockChar(b, 0);
    ValueOfBlockChar(b, 1);
    ValueOfBlockChar(b, 2);
    ValueOfBlockChar(b, 3);
    Reassembled(ByteOr0(b, 0), ByteOr0(b, 1), ByteOr0(b, 2));
    assert DecodeBlock(EncodeBlock(b), buffer) == [ByteOr0(b, 0), ByteOr0(b, 1), ByteOr0(b, 2)];
  }

  /** How many padding characters the decoder counts at the end of the text. */
  function PaddingCount(t: string): nat
    requires |t| >= 2
  {
    (if t[|t| - 2] == '=' then 1 else 0) + (if t[|t| - 1] == '=' then 1 else 0)
  }

  lemma PaddingMeans(t: string)
    requires |t| >= 2
    ensures PaddingCount(t) == (if t[|t| - 2] == '=' then 1 else 0) + (if t[|t| - 1] == '=' then 1 else 0)
  {
  }

  /** They say how many bytes of the last block are missing. */
  lemma PaddingOf(m: seq<Byte>)
    requires m != []
    ensures |Base64Text(m)| >= 4
    ensures |m| + PaddingCount(Base64Text(m)) == 3 * (|Base64Text(m)| / 4)
  {
    var q := (|m| - 1) / 3;
    var b, t := BlockOf(m, q), Base64Text(m);
    BlockCharAt(m, q, 2);
    BlockCharAt(m, q, 3);
    ValueOfBlockChar(b, 2);
    ValueOfBlockChar(b, 3);
    assert |t| == 4 * q + 4;
  }

  // --- Decoding a whole text, block by block ---

  /** The three-byte buffer after `q` blocks; an invalid block leaves what the one before it wrote. */
  function BufferAfter(t: string, q: nat, junk: seq<Byte>): (b: seq<Byte>)
    requires 4 * q <= |t| && |junk| == 3
    ensures |b| == 3
  {
    if q == 0 then junk else DecodeBlock(t[4 * q - 4..4 * q], BufferAfter(t, q - 1, junk))
  }

  function DecodedBlocks(t: string, q: nat, junk: seq<Byte>): (s: seq<Byte>)
    requires 4 * q <= |t| && |junk| == 3
    ensures |s| == 3 * q
  {
    if q == 0 then [] else DecodedBlocks(t, q - 1, junk) + BufferAfter(t, q, junk)
  }

  /** The payload `decode` recovers from a non-empty text: an incomplete last block yields three zero bytes. */
  function DecodedText(t: string, junk: seq<Byte>): seq<Byte>
    requires t != [] && |junk| == 3
  {
    var s := DecodedBlocks(t, |t| / 4, junk);
    if |t| % 4 != 0 then s + Zeros(3) else s[..|s| - PaddingCount(t)]
  }

  /** The message, zero filled to whole blocks. */
  function Filled(m: seq<Byte>): (s: seq<Byte>)
    ensures |s| == 3 * ((|m| + 2) / 3)
  {
    m + Zeros(3 * ((|m| + 2) / 3) - |m|)
  }

  lemma BlockDecodes(m: seq<Byte>, q: nat, buffer: seq<Byte>)
    requires 3 * q < |m| && |buffer| == 3
    ensures 4 * q + 4 <= |Base64Text(m)| && 3 * q + 3 <= |Filled(m)|
    ensures DecodeBlock(Base64Text(m)[4 * q..4 * q + 4], buffer) == Filled(m)[3 * q..3 * q + 3]
  {
    var b := BlockOf(m, q);
    EncodeBlockAt(m, q);
    DecodeEncodedBlock(b, buffer);
    assert Filled(m)[3 * q..3 * q + 3] == b + Zeros(3 - |b|);
  }

  lemma DecodedStep(t: string, q: nat, junk: seq<Byte>)
    requires 0 < q && 4 * q <= |t| && |junk| == 3
    ensures DecodedBlocks(t, q, junk) ==
            DecodedBlocks(t, q - 1, junk) + DecodeBlock(t[4 * q - 4..4 * q], BufferAfter(t, q - 1, junk))
  {
  }

  lemma {:induction false} DecodedPrefix(m: seq<Byte>, t: string, all: seq<Byte>, q: nat, junk: seq<Byte>,
                                         decoded: seq<Byte>)
    requires t == Base64Text(m) && all == Filled(m) && 4 * q <= |t| && |junk| == 3
    requires decoded == DecodedBlocks(t, q, junk)
    ensures decoded == all[..3 * q]
    decreases q
  {
    hide DecodeBlock, Filled, Base64Text;
    if q > 0 {
      var prefix, buffer := DecodedBlocks(t, q - 1, junk), BufferAfter(t, q - 1, junk);
      DecodedPrefix(m, t, all, q - 1, junk, prefix);
      DecodedStep(t, q, junk);
      BlockDecodes(m, q - 1, buffer);
      assert all[..3 * q] == all[..3 * q - 3] + all[3 * q - 3..3 * q];
    }
  }

  /** Every non-empty payload survives encoding and blockwise decoding, whatever the buffer held before. */
  lemma Base64RoundTrip(m: seq<Byte>, junk: seq<Byte>)
    requires m != [] && |junk| == 3
    ensures DecodedText(Base64Text(m), junk) == m
  {
    var t := Base64Text(m);
    PaddingOf(m);
    DecodedPrefix(m, t, Filled(m), |t| / 4, junk, DecodedBlocks(t, |t| / 4, junk));
  }

  const BASE64_ALPHABET: seq<string> := ["ABCDEFGHIJKLMNOP", "QRSTUVWXYZabcdef", "ghijklmnopqrstuv", "wxyz0123456789+/"]

  /** The alphabet, in four lines of sixteen characters. */
  lemma AlphabetOf64(v: nat)
    requires v < 64
    ensures Char64(v) == BASE64_ALPHABET[v / 16][v % 16]
  {
    var line := BASE64_ALPHABET[v / 16];
    if v < 16 {
      assert line == BASE64_ALPHABET[0];
    } else if v < 32 {
      assert line == BASE64_ALPHABET[1];
    } else if v < 48 {
      assert line == BASE64_ALPHABET[2];
    } else {
      assert line == BASE64_ALPHABET[3];
    }
  }

  lemma VectorOf(m: seq<Byte>, t: string)
    requires 1 <= |m| <= 3 && t == EncodeBlock(m)
    ensures Base64Text(m) == t
  {
    hide EncodeBlock;
    EncodeBlockAt(m, 0);
    assert BlockOf(m, 0) == m;
    assert Base64Text(m)[0..4] == Base64Text(m);
  }

  /** Test vectors of section 10 of RFC 4648: "f", "fo" and "foo". */
  lemma Base64Vectors()
    ensures Base64Text([0x66]) == "Zg==" && Base64Text([0x66, 0x6f]) == "Zm8=" && Base64Text([0x66, 0x6f, 0x6f]) == "Zm9v"
  {
    VectorOf([0x66], "Zg==");
    VectorOf([0x66, 0x6f], "Zm8=");
    VectorOf([0x66, 0x6f, 0x6f], "Zm9v");
  }
}
