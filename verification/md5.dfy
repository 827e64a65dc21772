/** MD5 as specified in RFC 1321, on bytes, with 32-bit words as `bv32`.

    Python integers are unbounded, and the source keeps them in 32 bits by
    masking with `& 0xffffffff`; `bv32` arithmetic wraps modulo 2^32, which
    is what each mask computes. Python's `~b` is the negative number
    `-b - 1`, whose low 32 bits are the 32-bit complement `!b`; every value
    built from it is masked or combined with 32-bit operands before use, so
    `!b` gives the same result. */
module Md5 {
  import opened Seqs

  // ---------------------------------------------------------------------
  // 32-bit rotation

  /** `left_rotate(x, c)`: shift left by `c`, bringing the `c` bits that
      fall off the top back in at the bottom. The amount is taken modulo
      32; `LeftRotateAsWritten` shows this is the source's expression for
      every amount it accepts (0 to 32: a larger one makes `32 - c`
      negative, which Python rejects). */
  function LeftRotate(x: bv32, c: bv32): bv32 {
    (x << (c & 31)) | (x >> (32 - (c & 31)))
  }

  /** Rotation the other way. */
  function RightRotate(x: bv32, c: bv32): bv32 {
    (x >> (c & 31)) | (x << (32 - (c & 31)))
  }

  /** For the amounts `left_rotate` accepts, `LeftRotate` is its expression
      `(x << c) | (x >> (32 - c))` cut to 32 bits. */
  lemma LeftRotateAsWritten(x: bv32, c: bv32)
    requires c <= 32
    ensures LeftRotate(x, c) == (x << c) | (x >> (32 - c))
  {
  }

  /** `LeftRotate` is a rotation: the low `32 - c` bits of `x` move up by
      `c`, and its top `c` bits become the low `c` bits. */
  lemma LeftRotateMovesBits(x: bv32, c: bv32)
    requires c <= 32
    ensures LeftRotate(x, c) >> c == x & (0xffff_ffff >> c)
    ensures LeftRotate(x, c) & ((1 << c) - 1) == x >> (32 - c)
  {
  }

  /** Rotating right by the same amount undoes `LeftRotate`, so no bit is
      lost. */
  lemma RightRotateUndoes(x: bv32, c: bv32)
    requires c <= 32
    ensures RightRotate(LeftRotate(x, c), c) == x
  {
    if c <= 10 {
      assert c == 0 || c == 1 || c == 2 || c == 3 || c == 4 || c == 5
        || c == 6 || c == 7 || c == 8 || c == 9 || c == 10;
      UndoLow(x, c);
    } else if c <= 21 {
      assert c == 11 || c == 12 || c == 13 || c == 14 || c == 15 || c == 16
        || c == 17 || c == 18 || c == 19 || c == 20 || c == 21;
      UndoMiddle(x, c);
    } else {
      assert c == 22 || c == 23 || c == 24 || c == 25 || c == 26 || c == 27
        || c == 28 || c == 29 || c == 30 || c == 31 || c == 32;
      UndoHigh(x, c);
    }
  }

  // The solver handles a rotation by a fixed amount at once, and one by an
  // unknown amount only slowly; these three enumerate the amounts.

  lemma UndoLow(x: bv32, c: bv32)
    requires c == 0 || c == 1 || c == 2 || c == 3 || c == 4 || c == 5
      || c == 6 || c == 7 || c == 8 || c == 9 || c == 10
    ensures RightRotate(LeftRotate(x, c), c) == x
  {
    if c == 0 {
    } else if c == 1 {
    } else if c == 2 {
    } else if c == 3 {
    } else if c == 4 {
    } else if c == 5 {
    } else if c == 6 {
    } else if c == 7 {
    } else if c == 8 {
    } else if c == 9 {
    } else if c == 10 {
    } else {
      assert false;
    }
  }

  lemma UndoMiddle(x: bv32, c: bv32)
    requires c == 11 || c == 12 || c == 13 || c == 14 || c == 15 || c == 16
      || c == 17 || c == 18 || c == 19 || c == 20 || c == 21
    ensures RightRotate(LeftRotate(x, c), c) == x
  {
    if c == 11 {
    } else if c == 12 {
    } else if c == 13 {
    } else if c == 14 {
    } else if c == 15 {
    } else if c == 16 {
    } else if c == 17 {
    } else if c == 18 {
    } else if c == 19 {
    } else if c == 20 {
    } else if c == 21 {
    } else {
      assert false;
    }
  }

  lemma UndoHigh(x: bv32, c: bv32)
    requires c == 22 || c == 23 || c == 24 || c == 25 || c == 26 || c == 27
      || c == 28 || c == 29 || c == 30 || c == 31 || c == 32
    ensures RightRotate(LeftRotate(x, c), c) == x
  {
    if c == 22 {
    } else if c == 23 {
    } else if c == 24 {
    } else if c == 25 {
    } else if c == 26 {
    } else if c == 27 {
    } else if c == 28 {
    } else if c == 29 {
    } else if c == 30 {
    } else if c == 31 {
    } else if c == 32 {
    } else {
      assert false;
    }
  }

  // ---------------------------------------------------------------------
  // Padding (RFC 1321 sections 3.1 and 3.2)

  /** 2^64: the bit length must fit the 64-bit length field. */
  const TwoTo64: nat := 0x1_0000_0000_0000_0000

  /** The number of zero bytes after the 0x80 marker for an `n`-byte
      message, `(56 - (n + 1) % 64) % 64`. Python's `%` floors; for the
      positive modulus 64 that agrees with Dafny's `%`, so the result is
      never negative. It is the fewest zero bytes that bring the length to
      56 modulo 64 (448 bits modulo 512). */
  function ZeroCount(n: nat): (z: nat)
    ensures z < 64
    ensures (n + 1 + z) % 64 == 56
  {
    (56 - (n + 1) % 64) % 64
  }

  /** The marker, the zeros and the 8-byte length field bring the length
      to a multiple of 64. */
  lemma PadLength(n: nat)
    ensures (n + 9 + ZeroCount(n)) % 64 == 0
  {
    var k, r := (n + 1) / 64, (n + 1) % 64;
    assert n + 1 == 64 * k + r;
    if r <= 56 {
      assert ZeroCount(n) == 56 - r;
      MultipleOf64(k + 1);
      assert n + 9 + ZeroCount(n) == 64 * (k + 1);
    } else {
      assert ZeroCount(n) == 120 - r;
      MultipleOf64(k + 2);
      assert n + 9 + ZeroCount(n) == 64 * (k + 2);
    }
  }

  lemma MultipleOf64(m: nat)
    ensures (64 * m) % 64 == 0
  {
  }

  function Zeros(k: nat): (r: seq<bv8>)
    ensures |r| == k
    ensures forall i :: 0 <= i < k ==> r[i] == 0
  {
    seq(k, _ => 0)
  }

  function Pow256(k: nat): (p: nat)
    ensures p > 0
  {
    if k == 0 then 1 else 256 * Pow256(k - 1)
  }

  /** `v` as `k` little-endian bytes (`struct.pack('<Q', v)` for `k` = 8). */
  function ToLE(v: nat, k: nat): (r: seq<bv8>)
    ensures |r| == k
  {
    if k == 0 then [] else [ByteOf(v % 256)] + ToLE(v / 256, k - 1)
  }

  /** The number that little-endian bytes denote. */
  function FromLE(bs: seq<bv8>): nat {
    if |bs| == 0 then 0 else bs[0] as nat + 256 * FromLE(bs[1..])
  }

  /** The byte holding the number `n`, built bit by bit from the top. */
  function ByteOf(n: nat): bv8
    requires n < 256
    decreases n
  {
    if n == 0 then 0 else (ByteOf(n / 2) << 1) | (if n % 2 == 1 then 1 else 0)
  }

  lemma ShiftInBit(y: bv8, bit: bv8)
    requires y < 128 && bit < 2
    ensures ((y << 1) | bit) as nat == 2 * (y as nat) + bit as nat
  {
  }

  /** `ByteOf` is the inverse of reading a byte as a number. */
  lemma {:induction false} ByteValue(n: nat)
    requires n < 256
    ensures ByteOf(n) as nat == n
    decreases n
  {
    if n > 0 {
      ByteValue(n / 2);
      var bit: bv8 := if n % 2 == 1 then 1 else 0;
      ShiftInBit(ByteOf(n / 2), bit);
    }
  }

  /** Little-endian encoding loses nothing when the value fits. */
  lemma {:induction false} FromToLE(v: nat, k: nat)
    requires v < Pow256(k)
    ensures FromLE(ToLE(v, k)) == v
  {
    if k > 0 {
      var q := v / 256;
      var b := v % 256;
      assert v == 256 * q + b;
      assert q < Pow256(k - 1);
      FromToLE(q, k - 1);
      ByteValue(b);
      var t := ToLE(v, k);
      assert t[0] as nat == b;
      assert t[1..] == ToLE(q, k - 1);
    }
  }

  lemma Pow256Eight()
    ensures Pow256(8) == TwoTo64
  {
  }

  /** What RFC 1321 asks of a padded message for `msg`: it starts with the
      message, then one 0x80 byte and zero bytes, and ends with the bit
      length as 8 little-endian bytes; its length is a multiple of 64 and
      exceeds the message by 9 to 72 bytes. */
  ghost predicate PaddedLayout(msg: seq<bv8>, p: seq<bv8>) {
    && |p| % 64 == 0
    && |msg| + 9 <= |p| <= |msg| + 72
    && p[..|msg|] == msg
    && p[|msg|] == 0x80
    && (forall i :: |msg| < i < |p| - 8 ==> p[i] == 0)
    && FromLE(p[|p| - 8..]) == |msg| * 8
  }

  /** What `hash` appends to the message: the marker, the zeros and the
      length field. */
  function PadTail(n: nat): (t: seq<bv8>)
    requires n * 8 < TwoTo64
    ensures |t| == 9 + ZeroCount(n)
  {
    [0x80] + Zeros(ZeroCount(n)) + ToLE(n * 8, 8)
  }

  lemma PadTailFacts(n: nat)
    requires n * 8 < TwoTo64
    ensures PadTail(n)[0] == 0x80
    ensures forall i :: 0 < i < |PadTail(n)| - 8 ==> PadTail(n)[i] == 0
    ensures FromLE(PadTail(n)[|PadTail(n)| - 8..]) == n * 8
  {
    var t := PadTail(n);
    var z := ZeroCount(n);
    assert t[|t| - 8..] == ToLE(n * 8, 8);
    Pow256Eight();
    FromToLE(n * 8, 8);
    forall i | 0 < i < |t| - 8
      ensures t[i] == 0
    {
      assert t[i] == Zeros(z)[i - 1];
    }
  }

  /** The padding step of `hash`. `struct.pack('<Q', ...)` raises for a bit
      length of 2^64 or more, so such messages have no padding (and no
      digest) here. */
  function Pad(msg: seq<bv8>): (r: Option<seq<bv8>>)
    ensures r.None? <==> |msg| * 8 >= TwoTo64
    ensures r.Some? ==> PaddedLayout(msg, r.value)
  {
    if |msg| * 8 >= TwoTo64 then None
    else
      var p := msg + PadTail(|msg|);
      PaddedHasLayout(msg, p);
      Some(p)
  }

  lemma PaddedHasLayout(msg: seq<bv8>, p: seq<bv8>)
    requires |msg| * 8 < TwoTo64
    requires p == msg + PadTail(|msg|)
    ensures PaddedLayout(msg, p)
  {
    var n := |msg|;
    PadTailFacts(n);
    AppendedTail(msg, PadTail(n));
    PadLength(n);
  }

  /** Reading a message followed by a tail of at least 8 bytes: the prefix
      is the message, and the positions after it, up to the last 8, and
      the last 8 themselves are those of the tail. */
  lemma AppendedTail(msg: seq<bv8>, t: seq<bv8>)
    requires |t| >= 9
    ensures (msg + t)[..|msg|] == msg
    ensures (msg + t)[|msg|] == t[0]
    ensures forall i :: |msg| < i < |msg| + |t| - 8 ==> (msg + t)[i] == t[i - |msg|]
    ensures (msg + t)[|msg| + |t| - 8..] == t[|t| - 8..]
  {
  }

  /** Reads the message back out of a padded one, by the length field. */
  function Unpad(p: seq<bv8>): (r: Option<seq<bv8>>)
    ensures r.Some? ==> |r.value| <= |p|
  {
    if |p| < 8 then None
    else
      var bits := FromLE(p[|p| - 8..]);
      if bits % 8 == 0 && bits / 8 <= |p| then Some(p[..bits / 8]) else None
  }

  /** Padding can be undone: the length field recovers the message. */
  lemma UnpadPad(msg: seq<bv8>)
    requires |msg| * 8 < TwoTo64
    ensures Unpad(Pad(msg).value) == Some(msg)
  {
    var p := Pad(msg).value;
    assert PaddedLayout(msg, p);
  }

  // ---------------------------------------------------------------------
  // Words (struct.pack / struct.unpack with '<I')

  /** Four bytes, least significant first, as one word. */
  function Pack(b0: bv8, b1: bv8, b2: bv8, b3: bv8): bv32 {
    (b0 as bv32) | ((b1 as bv32) << 8) | ((b2 as bv32) << 16) | ((b3 as bv32) << 24)
  }

  function Byte0(w: bv32): bv8 { (w & 0xff) as bv8 }
  function Byte1(w: bv32): bv8 { ((w >> 8) & 0xff) as bv8 }
  function Byte2(w: bv32): bv8 { ((w >> 16) & 0xff) as bv8 }
  function Byte3(w: bv32): bv8 { ((w >> 24) & 0xff) as bv8 }

  /** Splitting a word into bytes and packing them back gives the word. */
  lemma PackBytes(w: bv32)
    ensures Pack(Byte0(w), Byte1(w), Byte2(w), Byte3(w)) == w
  {
  }

  /** Packing bytes and splitting the word gives the bytes back. */
  lemma BytesOfPack(b0: bv8, b1: bv8, b2: bv8, b3: bv8)
    ensures Byte0(Pack(b0, b1, b2, b3)) == b0 && Byte1(Pack(b0, b1, b2, b3)) == b1
    ensures Byte2(Pack(b0, b1, b2, b3)) == b2 && Byte3(Pack(b0, b1, b2, b3)) == b3
  {
  }

  function WordOf(b: seq<bv8>): bv32
    requires |b| == 4
  {
    Pack(b[0], b[1], b[2], b[3])
  }

  function BytesOfWord(w: bv32): (r: seq<bv8>)
    ensures |r| == 4
  {
    [Byte0(w), Byte1(w), Byte2(w), Byte3(w)]
  }

  /** `struct.unpack('<nI', bs)`: consecutive little-endian words. */
  function DecodeWords(bs: seq<bv8>): (r: seq<bv32>)
    requires |bs| % 4 == 0
    ensures |r| == |bs| / 4
    decreases |bs|
  {
    if |bs| == 0 then [] else [WordOf(bs[..4])] + DecodeWords(bs[4..])
  }

  /** `struct.pack('<nI', ws...)`: the words as little-endian bytes. */
  function EncodeWords(ws: seq<bv32>): (r: seq<bv8>)
    ensures |r| == 4 * |ws|
  {
    if |ws| == 0 then [] else BytesOfWord(ws[0]) + EncodeWords(ws[1..])
  }

  /** Decoding the encoding of words gives the words back. */
  lemma {:induction false} DecodeEncode(ws: seq<bv32>)
    ensures DecodeWords(EncodeWords(ws)) == ws
  {
    if |ws| > 0 {
      var e := EncodeWords(ws);
      assert e[..4] == BytesOfWord(ws[0]);
      assert e[4..] == EncodeWords(ws[1..]);
      PackBytes(ws[0]);
      DecodeEncode(ws[1..]);
    }
  }

  /** Encoding the decoded words gives the bytes back. */
  lemma {:induction false} EncodeDecode(bs: seq<bv8>)
    requires |bs| % 4 == 0
    ensures EncodeWords(DecodeWords(bs)) == bs
    decreases |bs|
  {
    if |bs| > 0 {
      BytesOfPack(bs[0], bs[1], bs[2], bs[3]);
      assert BytesOfWord(WordOf(bs[..4])) == bs[..4];
      EncodeDecode(bs[4..]);
      assert bs == bs[..4] + bs[4..];
    }
  }

  // ---------------------------------------------------------------------
  // Round constants and schedules (RFC 1321 section 3.4)

  /** T[i] = floor(2^32 * |sin(i + 1)|), the sine table of RFC 1321 section
      3.4; the source computes it in floating point, here it is written out. */
  function SineTable(): (t: seq<bv32>)
    ensures |t| == 64
  {
    [ 0xd76aa478, 0xe8c7b756, 0x242070db, 0xc1bdceee,
      0xf57c0faf, 0x4787c62a, 0xa8304613, 0xfd469501,
      0x698098d8, 0x8b44f7af, 0xffff5bb1, 0x895cd7be,
      0x6b901122, 0xfd987193, 0xa679438e, 0x49b40821,
      0xf61e2562, 0xc040b340, 0x265e5a51, 0xe9b6c7aa,
      0xd62f105d, 0x02441453, 0xd8a1e681, 0xe7d3fbc8,
      0x21e1cde6, 0xc33707d6, 0xf4d50d87, 0x455a14ed,
      0xa9e3e905, 0xfcefa3f8, 0x676f02d9, 0x8d2a4c8a,
      0xfffa3942, 0x8771f681, 0x6d9d6122, 0xfde5380c,
      0xa4beea44, 0x4bdecfa9, 0xf6bb4b60, 0xbebfbc70,
      0x289b7ec6, 0xeaa127fa, 0xd4ef3085, 0x04881d05,
      0xd9d4d039, 0xe6db99e5, 0x1fa27cf8, 0xc4ac5665,
      0xf4292244, 0x432aff97, 0xab9423a7, 0xfc93a039,
      0x655b59c3, 0x8f0ccc92, 0xffeff47d, 0x85845dd1,
      0x6fa87e4f, 0xfe2ce6e0, 0xa3014314, 0x4e0811a1,
      0xf7537e82, 0xbd3af235, 0x2ad7d2bb, 0xeb86d391 ]
  }

  /** The four rotation amounts of round `q`, as RFC 1321 section 3.4
      lists them (S11..S14, S21..S24, S31..S34, S41..S44). */
  function RoundShifts(q: nat): (s: seq<bv32>)
    requires q < 4
    ensures |s| == 4
    ensures forall k :: 0 <= k < 4 ==> 4 <= s[k] <= 23
  {
    if q == 0 then [7, 12, 17, 22]
    else if q == 1 then [5, 9, 14, 20]
    else if q == 2 then [4, 11, 16, 23]
    else [6, 10, 15, 21]
  }

  /** `s * 4` in Python: four copies of `s` in a row. */
  function Repeat4<T>(s: seq<T>): seq<T> {
    s + s + s + s
  }

  /** The `shifts` list of the source. */
  function Shifts(): seq<bv32> {
    Repeat4([7, 12, 17, 22]) + Repeat4([5, 9, 14, 20])
    + Repeat4([4, 11, 16, 23]) + Repeat4([6, 10, 15, 21])
  }

  lemma Repeat4At<T>(t: seq<T>, j: nat)
    requires |t| == 4 && j < 16
    ensures |Repeat4(t)| == 16
    ensures Repeat4(t)[j] == t[j % 4]
  {
  }

  /** The list holds 64 amounts, and entry `16 * q + j` is round `q`'s
      amount for position `j % 4`: the per-step schedule of RFC 1321
      section 3.4, where each round cycles through its four amounts. */
  lemma ShiftsAt(q: nat, j: nat)
    requires q < 4 && j < 16
    ensures |Shifts()| == 64
    ensures Shifts()[16 * q + j] == RoundShifts(q)[j % 4]
  {
    Repeat4At(RoundShifts(q), j);
    var r0, r1, r2, r3 := Repeat4(RoundShifts(0)), Repeat4(RoundShifts(1)),
                          Repeat4(RoundShifts(2)), Repeat4(RoundShifts(3));
    assert Shifts() == r0 + r1 + r2 + r3;
    if q == 0 {
      assert Shifts()[j] == r0[j];
    } else if q == 1 {
      assert Shifts()[16 + j] == r1[j];
    } else if q == 2 {
      assert Shifts()[32 + j] == r2[j];
    } else {
      assert Shifts()[48 + j] == r3[j];
    }
  }

  /** Every rotation amount lies between 4 and 23. */
  lemma ShiftsBounded(i: nat)
    requires i < 64
    ensures |Shifts()| == 64
    ensures 4 <= Shifts()[i] <= 23
  {
    var q := i / 16;
    ShiftsAt(q, i - 16 * q);
  }

  /** `G(i)`: which message word step `i` adds in. */
  function WordIndex(i: nat): (g: nat)
    requires i < 64
    ensures g < 16
  {
    if i < 16 then i
    else if i < 32 then (5 * i + 1) % 16
    else if i < 48 then (3 * i + 5) % 16
    else (7 * i) % 16
  }

  /** The word that step `j` of round `q` reads. */
  function RoundWord(q: nat, j: nat): (w: nat)
    requires q < 4 && j < 16
    ensures w < 16
  {
    WordIndex(16 * q + j)
  }

  /** The step of round `q` that reads word `w`: the schedule inverted
      (13, 11 and 7 are the inverses of 5, 3 and 7 modulo 16). */
  function StepOfWord(q: nat, w: nat): (j: nat)
    requires q < 4 && w < 16
    ensures j < 16
  {
    if q == 0 then w
    else if q == 1 then (13 * w + 3) % 16
    else if q == 2 then (11 * w + 9) % 16
    else (7 * w) % 16
  }

  // The residues modulo 16 behind the inverses, checked value by value.
  lemma SecondRoundForward(j: int)
    requires 0 <= j < 16
    ensures (13 * ((5 * (16 + j) + 1) % 16) + 3) % 16 == j
  {
    match j
    case 0 =>
    case 1 =>
    case 2 =>
    case 3 =>
    case 4 =>
    case 5 =>
    case 6 =>
    case 7 =>
    case 8 =>
    case 9 =>
    case 10 =>
    case 11 =>
    case 12 =>
    case 13 =>
    case 14 =>
    case 15 =>
    case _ =>
  }

  lemma SecondRoundBackward(j: int)
    requires 0 <= j < 16
    ensures (5 * (16 + (13 * j + 3) % 16) + 1) % 16 == j
  {
    match j
    case 0 =>
    case 1 =>
    case 2 =>
    case 3 =>
    case 4 =>
    case 5 =>
    case 6 =>
    case 7 =>
    case 8 =>
    case 9 =>
    case 10 =>
    case 11 =>
    case 12 =>
    case 13 =>
    case 14 =>
    case 15 =>
    case _ =>
  }

  lemma ThirdRoundForward(j: int)
    requires 0 <= j < 16
    ensures (11 * ((3 * (32 + j) + 5) % 16) + 9) % 16 == j
  {
    match j
    case 0 =>
    case 1 =>
    case 2 =>
    case 3 =>
    case 4 =>
    case 5 =>
    case 6 =>
    case 7 =>
    case 8 =>
    case 9 =>
    case 10 =>
    case 11 =>
    case 12 =>
    case 13 =>
    case 14 =>
    case 15 =>
    case _ =>
  }

  lemma ThirdRoundBackward(j: int)
    requires 0 <= j < 16
    ensures (3 * (32 + (11 * j + 9) % 16) + 5) % 16 == j
  {
    match j
    case 0 =>
    case 1 =>
    case 2 =>
    case 3 =>
    case 4 =>
    case 5 =>
    case 6 =>
    case 7 =>
    case 8 =>
    case 9 =>
    case 10 =>
    case 11 =>
    case 12 =>
    case 13 =>
    case 14 =>
    case 15 =>
    case _ =>
  }

  lemma FourthRoundForward(j: int)
    requires 0 <= j < 16
    ensures (7 * ((7 * (48 + j)) % 16)) % 16 == j
  {
    match j
    case 0 =>
    case 1 =>
    case 2 =>
    case 3 =>
    case 4 =>
    case 5 =>
    case 6 =>
    case 7 =>
    case 8 =>
    case 9 =>
    case 10 =>
    case 11 =>
    case 12 =>
    case 13 =>
    case 14 =>
    case 15 =>
    case _ =>
  }

  lemma FourthRoundBackward(j: int)
    requires 0 <= j < 16
    ensures (7 * (48 + (7 * j) % 16)) % 16 == j
  {
    match j
    case 0 =>
    case 1 =>
    case 2 =>
    case 3 =>
    case 4 =>
    case 5 =>
    case 6 =>
    case 7 =>
    case 8 =>
    case 9 =>
    case 10 =>
    case 11 =>
    case 12 =>
    case 13 =>
    case 14 =>
    case 15 =>
    case _ =>
  }

  /** `StepOfWord` undoes `RoundWord`: no two steps of a round read the
      same word. */
  lemma StepOfRoundWord(q: nat, j: nat)
    requires q < 4 && j < 16
    ensures StepOfWord(q, RoundWord(q, j)) == j
  {
    if q == 1 {
      SecondRoundForward(j);
      assert RoundWord(1, j) == (5 * (16 + j) + 1) % 16;
    } else if q == 2 {
      ThirdRoundForward(j);
      assert RoundWord(2, j) == (3 * (32 + j) + 5) % 16;
    } else if q == 3 {
      FourthRoundForward(j);
      assert RoundWord(3, j) == (7 * (48 + j)) % 16;
    }
  }

  /** `RoundWord` undoes `StepOfWord`: every word is read in every round. */
  lemma RoundWordOfStep(q: nat, w: nat)
    requires q < 4 && w < 16
    ensures RoundWord(q, StepOfWord(q, w)) == w
  {
    if q == 1 {
      SecondRoundBackward(w);
      assert RoundWord(1, StepOfWord(1, w)) == (5 * (16 + (13 * w + 3) % 16) + 1) % 16;
    } else if q == 2 {
      ThirdRoundBackward(w);
      assert RoundWord(2, StepOfWord(2, w)) == (3 * (32 + (11 * w + 9) % 16) + 5) % 16;
    } else if q == 3 {
      FourthRoundBackward(w);
      assert RoundWord(3, StepOfWord(3, w)) == (7 * (48 + (7 * w) % 16)) % 16;
    }
  }

  /** Each round reads every one of the 16 message words exactly once: the
      steps read different words, and word `w` is read at step
      `StepOfWord(q, w)`. */
  lemma RoundReadsEachWordOnce(q: nat)
    requires q < 4
    ensures forall j, k :: 0 <= j < k < 16 ==> RoundWord(q, j) != RoundWord(q, k)
    ensures forall w :: 0 <= w < 16 ==> RoundWord(q, StepOfWord(q, w)) == w
  {
    forall j, k | 0 <= j < k < 16
      ensures RoundWord(q, j) != RoundWord(q, k)
    {
      StepOfRoundWord(q, j);
      StepOfRoundWord(q, k);
    }
    forall w | 0 <= w < 16
      ensures RoundWord(q, StepOfWord(q, w)) == w
    {
      RoundWordOfStep(q, w);
    }
  }

  // ---------------------------------------------------------------------
  // Auxiliary functions (RFC 1321 section 3.4)

  /** F(X,Y,Z) = XY v not(X) Z. */
  function AuxF(x: bv32, y: bv32, z: bv32): bv32 {
    (x & y) | (!x & z)
  }

  /** G(X,Y,Z) = XZ v Y not(Z). */
  function AuxG(x: bv32, y: bv32, z: bv32): bv32 {
    (x & z) | (y & !z)
  }

  /** H(X,Y,Z) = X xor Y xor Z. */
  function AuxH(x: bv32, y: bv32, z: bv32): bv32 {
    x ^ y ^ z
  }

  /** I(X,Y,Z) = Y xor (X v not(Z)). */
  function AuxI(x: bv32, y: bv32, z: bv32): bv32 {
    y ^ (x | !z)
  }

  /** F acts as a conditional in each bit: where `x` has ones the result
      is `y`, elsewhere it is `z`. */
  lemma AuxFSelects(x: bv32, y: bv32, z: bv32)
    ensures AuxF(x, y, z) & x == y & x
    ensures AuxF(x, y, z) & !x == z & !x
  {
  }

  /** G selects by `z`: where `z` has ones the result is `x`, elsewhere
      it is `y`. */
  lemma AuxGSelects(x: bv32, y: bv32, z: bv32)
    ensures AuxG(x, y, z) & z == x & z
    ensures AuxG(x, y, z) & !z == y & !z
  {
  }

  /** H is the bitwise parity: taking an input out again leaves the
      parity of the other two. */
  lemma AuxHParity(x: bv32, y: bv32, z: bv32)
    ensures AuxH(x, y, z) ^ x == y ^ z
    ensures AuxH(x, y, z) ^ z == x ^ y
  {
  }

  /** I: where `z` has zeros the result is the complement of `y`,
      elsewhere it is `x xor y`. */
  lemma AuxISelects(x: bv32, y: bv32, z: bv32)
    ensures AuxI(x, y, z) & !z == !y & !z
    ensures AuxI(x, y, z) & z == (x ^ y) & z
  {
  }

  /** `F(i, b, c, d)` of the source. */
  function RoundFunction(i: nat, b: bv32, c: bv32, d: bv32): bv32
    requires i < 64
  {
    if i < 16 then (b & c) | (!b & d)
    else if i < 32 then (d & b) | (!d & c)
    else if i < 48 then b ^ c ^ d
    else c ^ (b | !d)
  }

  /** The source's `F` applies RFC 1321's F, G, H and I to (b, c, d) in
      the four quarters of the 64 steps. */
  lemma RoundFunctionByQuarter(i: nat, b: bv32, c: bv32, d: bv32)
    requires i < 64
    ensures RoundFunction(i, b, c, d) == (
      if i < 16 then AuxF(b, c, d)
      else if i < 32 then AuxG(b, c, d)
      else if i < 48 then AuxH(b, c, d)
      else AuxI(b, c, d))
  {
    if i < 16 {
    } else if i < 32 {
      assert (d & b) | (!d & c) == (b & d) | (c & !d);
    } else {
    }
  }

  // ---------------------------------------------------------------------
  // Block processing (RFC 1321 section 3.4)

  /** The four working registers (a, b, c, d). */
  datatype Regs = Regs(a: bv32, b: bv32, c: bv32, d: bv32)

  /** The initial buffer of RFC 1321 section 3.3. */
  const InitRegs: Regs := Regs(0x67452301, 0xefcdab89, 0x98badcfe, 0x10325476)

  /** The number of steps per block. */
  const StepCount: nat := 64

  /** `a + f + T[i] + M[g]`, modulo 2^32. */
  function Mix(a: bv32, f: bv32, t: bv32, w: bv32): bv32 {
    a + f + t + w
  }

  /** Takes `f`, `t` and `w` back out of a sum. */
  function Unmix(x: bv32, f: bv32, t: bv32, w: bv32): bv32 {
    x - f - t - w
  }

  /** `(x + y) & 0xffffffff`. */
  function Plus(x: bv32, y: bv32): bv32 {
    x + y
  }

  function Minus(x: bv32, y: bv32): bv32 {
    x - y
  }

  // The solver checks an identity like (x + y) - x == y at once when it
  // sees the sum written out, and only slowly when it has to discover that
  // two terms are equal first. The arithmetic of a step is therefore kept
  // inside the named functions above, and these lemmas state the identities
  // between them, so that the step proofs below are matters of equal terms.

  lemma MinusCancels(y: bv32, z: bv32)
    ensures Minus(y + z, y) == z
  {
  }

  lemma MinusPlus(y: bv32, z: bv32)
    ensures Minus(Plus(y, z), y) == z
  {
    MinusCancels(y, z);
  }

  lemma UnmixCancels(a: bv32, f: bv32, t: bv32, w: bv32)
    ensures Unmix(a + f + t + w, f, t, w) == a
  {
  }

  lemma MixUnmix(a: bv32, f: bv32, t: bv32, w: bv32)
    ensures Unmix(Mix(a, f, t, w), f, t, w) == a
  {
    UnmixCancels(a, f, t, w);
  }

  /** One step with its inputs spelled out: the round function's value
      `f`, the table entry `t`, the message word `w` and the rotation
      `shift`. The registers move round, and `b` takes the rotated sum. */
  function Advance(s: Regs, f: bv32, t: bv32, w: bv32, shift: bv32): (r: Regs)
    ensures r.a == s.d && r.c == s.b && r.d == s.c
  {
    Regs(s.d, Plus(s.b, LeftRotate(Mix(s.a, f, t, w), shift)), s.b, s.c)
  }

  /** `Advance` run backwards. */
  function Retreat(r: Regs, f: bv32, t: bv32, w: bv32, shift: bv32): Regs {
    Regs(Unmix(RightRotate(Minus(r.b, r.c), shift), f, t, w), r.c, r.d, r.a)
  }

  lemma AdvanceFields(s: Regs, f: bv32, t: bv32, w: bv32, shift: bv32)
    ensures Advance(s, f, t, w, shift).b == Plus(s.b, LeftRotate(Mix(s.a, f, t, w), shift))
    ensures Advance(s, f, t, w, shift).c == s.b
  {
  }

  /** The new `b` minus the old `b` is the rotated sum. */
  lemma AdvanceAdds(s: Regs, f: bv32, t: bv32, w: bv32, shift: bv32)
    ensures Minus(Advance(s, f, t, w, shift).b, Advance(s, f, t, w, shift).c)
      == LeftRotate(Mix(s.a, f, t, w), shift)
  {
    AdvanceFields(s, f, t, w, shift);
    MinusPlus(s.b, LeftRotate(Mix(s.a, f, t, w), shift));
  }

  /** `Retreat` undoes `Advance`. */
  lemma RetreatUndoes(s: Regs, f: bv32, t: bv32, w: bv32, shift: bv32)
    requires shift <= 32
    ensures Retreat(Advance(s, f, t, w, shift), f, t, w, shift) == s
  {
    AdvanceAdds(s, f, t, w, shift);
    RightRotateUndoes(Mix(s.a, f, t, w), shift);
    MixUnmix(s.a, f, t, w);
  }

  /** Step `i` of the inner loop on the block's words `m`. */
  function Step(i: nat, s: Regs, m: seq<bv32>): (r: Regs)
    requires i < 64 && |m| == 16
    ensures r.a == s.d && r.c == s.b && r.d == s.c
  {
    Advance(s, RoundFunction(i, s.b, s.c, s.d), SineTable()[i], m[WordIndex(i)], Shifts()[i])
  }

  /** Undoes step `i`. */
  function StepBack(i: nat, r: Regs, m: seq<bv32>): Regs
    requires i < 64 && |m| == 16
  {
    Retreat(r, RoundFunction(i, r.c, r.d, r.a), SineTable()[i], m[WordIndex(i)], Shifts()[i])
  }

  /** Every step is a bijection on the registers: `StepBack` recovers the
      registers before it. */
  lemma StepBackUndoes(i: nat, s: Regs, m: seq<bv32>)
    requires i < 64 && |m| == 16
    ensures StepBack(i, Step(i, s, m), m) == s
  {
    ShiftsBounded(i);
    RetreatUndoes(s, RoundFunction(i, s.b, s.c, s.d), SineTable()[i], m[WordIndex(i)], Shifts()[i]);
  }

  /** The first `n` steps on the block's words `m`. */
  function Rounds(s: Regs, m: seq<bv32>, n: nat): Regs
    requires n <= 64 && |m| == 16
  {
    if n == 0 then s else Step(n - 1, Rounds(s, m, n - 1), m)
  }

  /** The first `n` steps undone, last step first. */
  function RoundsBack(r: Regs, m: seq<bv32>, n: nat): Regs
    requires n <= 64 && |m| == 16
    decreases n
  {
    if n == 0 then r else RoundsBack(StepBack(n - 1, r, m), m, n - 1)
  }

  /** The steps lose nothing: undoing them restores the registers. */
  lemma {:induction false} RoundsBackUndoes(s: Regs, m: seq<bv32>, n: nat)
    requires n <= 64 && |m| == 16
    ensures RoundsBack(Rounds(s, m, n), m, n) == s
  {
    if n > 0 {
      StepBackUndoes(n - 1, Rounds(s, m, n - 1), m);
      RoundsBackUndoes(s, m, n - 1);
    }
  }

  /** One 64-byte block: run the 64 steps on its words and add the result
      into the chaining values, modulo 2^32. */
  function Compress(h: Regs, block: seq<bv8>): Regs
    requires |block| == 64
  {
    var r := Rounds(h, DecodeWords(block), StepCount);
    Regs(h.a + r.a, h.b + r.b, h.c + r.c, h.d + r.d)
  }

  /** The block loop: the chaining values after every 64-byte block of
      `p`, first block first. */
  function Chain(h: Regs, p: seq<bv8>): Regs
    decreases |p|
  {
    if |p| < 64 then h else Chain(Compress(h, p[..64]), p[64..])
  }

  /** The block loop can be split anywhere between blocks: hashing the
      `n` blocks of `p` and then `q` from where `p` left off is hashing
      `p + q`. */
  lemma {:induction false} ChainAppend(h: Regs, p: seq<bv8>, q: seq<bv8>, n: nat)
    requires |p| == 64 * n
    ensures Chain(h, p + q) == Chain(Chain(h, p), q)
    decreases n
  {
    if n > 0 {
      FirstBlockOfJoin(p, q);
      ChainAppend(Compress(h, p[..64]), p[64..], q, n - 1);
    } else {
      assert p + q == q;
    }
  }

  /** The first block of `p + q` comes from `p` when `p` has one. */
  lemma FirstBlockOfJoin(p: seq<bv8>, q: seq<bv8>)
    requires |p| >= 64
    ensures (p + q)[..64] == p[..64] && (p + q)[64..] == p[64..] + q
  {
  }

  // ---------------------------------------------------------------------
  // Output

  /** A lowercase hexadecimal digit. */
  predicate IsHexDigit(ch: char) {
    '0' <= ch <= '9' || 'a' <= ch <= 'f'
  }

  /** The digit for a value below 16, as `format(x, 'x')` writes it. */
  function HexDigit(v: nat): (ch: char)
    requires v < 16
    ensures IsHexDigit(ch)
  {
    if v < 10 then ('0' as int + v) as char else ('a' as int + v - 10) as char
  }

  /** The value of a hex digit. */
  function DigitValue(ch: char): (v: nat)
    requires IsHexDigit(ch)
    ensures v < 16 && HexDigit(v) == ch
  {
    if ch <= '9' then ch as int - '0' as int else ch as int - 'a' as int + 10
  }

  /** `f'{x:02x}'`: two lowercase hex digits, high nibble first. */
  function HexByte(x: bv8): (r: string)
    ensures |r| == 2 && IsHexDigit(r[0]) && IsHexDigit(r[1])
  {
    [HexDigit((x >> 4) as nat), HexDigit((x & 15) as nat)]
  }

  /** The bytes in hex, two digits each. */
  function Hex(bs: seq<bv8>): (r: string)
    ensures |r| == 2 * |bs|
    ensures forall k :: 0 <= k < |r| ==> IsHexDigit(r[k])
  {
    if |bs| == 0 then "" else HexByte(bs[0]) + Hex(bs[1..])
  }

  /** The byte that two hex digits denote, high digit first. */
  function ByteOfDigits(hi: char, lo: char): bv8
    requires IsHexDigit(hi) && IsHexDigit(lo)
  {
    ByteOf(DigitValue(hi) * 16 + DigitValue(lo))
  }

  /** Reads hex digits back into bytes. */
  function Unhex(s: string): (r: seq<bv8>)
    requires |s| % 2 == 0
    requires forall k :: 0 <= k < |s| ==> IsHexDigit(s[k])
    ensures |r| == |s| / 2
    decreases |s|
  {
    if |s| == 0 then [] else [ByteOfDigits(s[0], s[1])] + Unhex(s[2..])
  }

  lemma DigitRoundTrip(v: nat)
    requires v < 16
    ensures DigitValue(HexDigit(v)) == v
  {
  }

  lemma NatOfByte(x: bv8)
    ensures (x as nat) as bv8 == x
  {
  }

  /** A byte is its high nibble times 16 plus its low nibble. */
  lemma Nibbles(x: bv8)
    ensures (x >> 4) as nat * 16 + (x & 15) as nat == x as nat
  {
  }

  lemma HexByteValue(x: bv8)
    ensures DigitValue(HexByte(x)[0]) * 16 + DigitValue(HexByte(x)[1]) == x as nat
  {
    DigitRoundTrip((x >> 4) as nat);
    DigitRoundTrip((x & 15) as nat);
    Nibbles(x);
  }

  /** The two digits `HexByte` writes denote the byte. */
  lemma DigitsOfByte(x: bv8)
    ensures ByteOfDigits(HexByte(x)[0], HexByte(x)[1]) == x
  {
    HexByteValue(x);
    ByteValue(x as nat);
    NatOfByte(x);
    NatOfByte(ByteOf(x as nat));
  }

  /** Hex output loses nothing: reading it back gives the bytes. */
  lemma {:induction false} UnhexHex(bs: seq<bv8>)
    ensures Unhex(Hex(bs)) == bs
  {
    if |bs| > 0 {
      var h := Hex(bs);
      assert h == HexByte(bs[0]) + Hex(bs[1..]);
      assert h[2..] == Hex(bs[1..]);
      DigitsOfByte(bs[0]);
      UnhexHex(bs[1..]);
      assert Unhex(h) == [ByteOfDigits(h[0], h[1])] + Unhex(h[2..]);
    }
  }

  /** The final chaining values a0, b0, c0, d0 in hex, each packed
      little-endian: the return expression of `hash`. */
  function DigestHex(h: Regs): (r: string)
    ensures |r| == 32
    ensures forall k :: 0 <= k < |r| ==> IsHexDigit(r[k])
  {
    Hex(EncodeWords([h.a, h.b, h.c, h.d]))
  }

  /** The digest reads back as the 16 bytes of the chaining values, and
      those decode to the four words. */
  lemma DigestHexReadsBack(h: Regs)
    ensures Unhex(DigestHex(h)) == EncodeWords([h.a, h.b, h.c, h.d])
    ensures DecodeWords(Unhex(DigestHex(h))) == [h.a, h.b, h.c, h.d]
  {
    UnhexHex(EncodeWords([h.a, h.b, h.c, h.d]));
    DecodeEncode([h.a, h.b, h.c, h.d]);
  }

  /** `hash(message)` for a message given as bytes: 32 lowercase hex
      digits, or nothing when the bit length does not fit 64 bits. */
  function Md5Hex(msg: seq<bv8>): (r: Option<string>)
    ensures r.None? <==> |msg| * 8 >= TwoTo64
    ensures r.Some? ==> |r.value| == 32
    ensures r.Some? ==> forall k :: 0 <= k < 32 ==> IsHexDigit(r.value[k])
  {
    match Pad(msg)
    case None => None
    case Some(p) => Some(DigestHex(Chain(InitRegs, p)))
  }

  /** The block loop advances by one block. */
  lemma ChainStep(h: Regs, p: seq<bv8>, offset: nat)
    requires offset + 64 <= |p|
    ensures Chain(h, p[offset..])
      == Chain(Compress(h, p[offset..offset + 64]), p[offset + 64..])
  {
    var q := p[offset..];
    assert q[..64] == p[offset..offset + 64];
    assert q[64..] == p[offset + 64..];
  }

  /** A padded message is a positive number of whole blocks. */
  lemma PaddedBlocks(msg: seq<bv8>)
    requires Pad(msg).Some?
    ensures var size := |Pad(msg).value|;
            size == 64 * (size / 64) && size / 64 > 0
  {
  }

  /** A block boundary before the end of whole blocks leaves a whole block. */
  lemma NextBlockFits(offset: nat, size: nat, k: nat, n: nat)
    requires offset == 64 * k && size == 64 * n && offset < size
    ensures offset + 64 <= size
  {
  }

  /** The block loop of `hash`: walk whole blocks 64 bytes at a time,
      updating the chaining values; `blocks` counts the passes. */
  method ChainBlocks(p: seq<bv8>, ghost n: nat) returns (h: Regs, blocks: nat)
    requires |p| == 64 * n
    ensures h == Chain(InitRegs, p)
    ensures blocks == n
  {
    h := InitRegs;
    var offset := 0;
    blocks := 0;
    while offset < |p|
      invariant offset == 64 * blocks && blocks <= n
      invariant Chain(h, p[offset..]) == Chain(InitRegs, p)
      decreases |p| - offset
    {
      NextBlockFits(offset, |p|, blocks, n);
      ChainStep(h, p, offset);
      h := Compress(h, p[offset..offset + 64]);
      offset := offset + 64;
      blocks := blocks + 1;
    }
    assert p[offset..] == [];
  }

  /** `hash` as the source writes it: pad, walk the padded message 64
      bytes at a time updating the chaining values, print them in hex.
      `blocks` counts the passes of the block loop: one per 64 bytes of
      the padded message. */
  method Hash(msg: seq<bv8>) returns (r: Option<string>, blocks: nat)
    ensures r == Md5Hex(msg)
    ensures Pad(msg).None? ==> blocks == 0
    ensures Pad(msg).Some? ==> blocks == |Pad(msg).value| / 64 && blocks > 0
  {
    var padded := Pad(msg);
    if padded.None? {
      return None, 0;
    }
    var p := padded.value;
    PaddedBlocks(msg);
    var h;
    h, blocks := ChainBlocks(p, |p| / 64);
    r := Some(DigestHex(h));
  }
}
