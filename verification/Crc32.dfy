/** The table-driven CRC of src/crc32.c and the bit-serial register it stands for.

    Facts about single rounds are proved on bv32, everything else on Word, where the solver
    sees sums and shifts of registers as plain terms. */
module Crc32 {

  type octet = bv8

  datatype Word = Word(bits: bv32)

  const ZERO := Word(0)
  const POLY: bv32 := 0x04c11db7

  predicate Top(c: bv32) {
    c & 0x8000_0000 != 0
  }

  function XorBits(a: bv32, b: bv32): bv32 {
    a ^ b
  }

  function Shl1(c: bv32): bv32 {
    c << 1
  }

  function Shl8(c: bv32): bv32 {
    c << 8
  }

  function Shl24(c: bv32): bv32 {
    c << 24
  }

  function Shr24(c: bv32): bv32 {
    c >> 24
  }

  function Xor(a: Word, b: Word): Word {
    Word(XorBits(a.bits, b.bits))
  }

  // ---- the definition: one message bit at a time, most significant first ----

  /** The register takes in a bit: the feedback is the bit shifted out against the bit fed in. */
  function Register(c: bv32, b: bool): bv32 {
    if Top(c) != b then XorBits(Shl1(c), POLY) else Shl1(c)
  }

  function FeedBit(c: Word, b: bool): Word {
    Word(Register(c.bits, b))
  }

  function FeedBits(c: Word, bits: seq<bool>): Word
    decreases |bits|
  {
    if bits == [] then c else FeedBits(FeedBit(c, bits[0]), bits[1..])
  }

  function Bits(o: octet): seq<bool> {
    [o & 0x80 != 0, o & 0x40 != 0, o & 0x20 != 0, o & 0x10 != 0,
     o & 0x08 != 0, o & 0x04 != 0, o & 0x02 != 0, o & 0x01 != 0]
  }

  function Feed(c: Word, o: octet): Word {
    FeedBits(c, Bits(o))
  }

  function Crc(bytes: seq<octet>, init: Word): Word
    decreases |bytes|
  {
    if bytes == [] then init else Crc(bytes[1..], Feed(init, bytes[0]))
  }

  // ---- the table ----

  /** One round of the table generator in the header comment. */
  function Round(c: bv32): bv32 {
    if Top(c) then XorBits(Shl1(c), POLY) else Shl1(c)
  }

  /** A table entry takes eight. */
  function EightRounds(c: bv32): bv32 {
    Round(Round(Round(Round(Round(Round(Round(Round(c))))))))
  }

  const ROW0: seq<bv32> := [
    0x00000000, 0x04c11db7, 0x09823b6e, 0x0d4326d9,
    0x130476dc, 0x17c56b6b, 0x1a864db2, 0x1e475005,
    0x2608edb8, 0x22c9f00f, 0x2f8ad6d6, 0x2b4bcb61,
    0x350c9b64, 0x31cd86d3, 0x3c8ea00a, 0x384fbdbd
  ]
  const ROW1: seq<bv32> := [
    0x4c11db70, 0x48d0c6c7, 0x4593e01e, 0x4152fda9,
    0x5f15adac, 0x5bd4b01b, 0x569796c2, 0x52568b75,
    0x6a1936c8, 0x6ed82b7f, 0x639b0da6, 0x675a1011,
    0x791d4014, 0x7ddc5da3, 0x709f7b7a, 0x745e66cd
  ]
  const ROW2: seq<bv32> := [
    0x9823b6e0, 0x9ce2ab57, 0x91a18d8e, 0x95609039,
    0x8b27c03c, 0x8fe6dd8b, 0x82a5fb52, 0x8664e6e5,
    0xbe2b5b58, 0xbaea46ef, 0xb7a96036, 0xb3687d81,
    0xad2f2d84, 0xa9ee3033, 0xa4ad16ea, 0xa06c0b5d
  ]
  const ROW3: seq<bv32> := [
    0xd4326d90, 0xd0f37027, 0xddb056fe, 0xd9714b49,
    0xc7361b4c, 0xc3f706fb, 0xceb42022, 0xca753d95,
    0xf23a8028, 0xf6fb9d9f, 0xfbb8bb46, 0xff79a6f1,
    0xe13ef6f4, 0xe5ffeb43, 0xe8bccd9a, 0xec7dd02d
  ]
  const ROW4: seq<bv32> := [
    0x34867077, 0x30476dc0, 0x3d044b19, 0x39c556ae,
    0x278206ab, 0x23431b1c, 0x2e003dc5, 0x2ac12072,
    0x128e9dcf, 0x164f8078, 0x1b0ca6a1, 0x1fcdbb16,
    0x018aeb13, 0x054bf6a4, 0x0808d07d, 0x0cc9cdca
  ]
  const ROW5: seq<bv32> := [
    0x7897ab07, 0x7c56b6b0, 0x71159069, 0x75d48dde,
    0x6b93dddb, 0x6f52c06c, 0x6211e6b5, 0x66d0fb02,
    0x5e9f46bf, 0x5a5e5b08, 0x571d7dd1, 0x53dc6066,
    0x4d9b3063, 0x495a2dd4, 0x44190b0d, 0x40d816ba
  ]
  const ROW6: seq<bv32> := [
    0xaca5c697, 0xa864db20, 0xa527fdf9, 0xa1e6e04e,
    0xbfa1b04b, 0xbb60adfc, 0xb6238b25, 0xb2e29692,
    0x8aad2b2f, 0x8e6c3698, 0x832f1041, 0x87ee0df6,
    0x99a95df3, 0x9d684044, 0x902b669d, 0x94ea7b2a
  ]
  const ROW7: seq<bv32> := [
    0xe0b41de7, 0xe4750050, 0xe9362689, 0xedf73b3e,
    0xf3b06b3b, 0xf771768c, 0xfa325055, 0xfef34de2,
    0xc6bcf05f, 0xc27dede8, 0xcf3ecb31, 0xcbffd686,
    0xd5b88683, 0xd1799b34, 0xdc3abded, 0xd8fba05a
  ]
  const ROW8: seq<bv32> := [
    0x690ce0ee, 0x6dcdfd59, 0x608edb80, 0x644fc637,
    0x7a089632, 0x7ec98b85, 0x738aad5c, 0x774bb0eb,
    0x4f040d56, 0x4bc510e1, 0x46863638, 0x42472b8f,
    0x5c007b8a, 0x58c1663d, 0x558240e4, 0x51435d53
  ]
  const ROW9: seq<bv32> := [
    0x251d3b9e, 0x21dc2629, 0x2c9f00f0, 0x285e1d47,
    0x36194d42, 0x32d850f5, 0x3f9b762c, 0x3b5a6b9b,
    0x0315d626, 0x07d4cb91, 0x0a97ed48, 0x0e56f0ff,
    0x1011a0fa, 0x14d0bd4d, 0x19939b94, 0x1d528623
  ]
  const ROW10: seq<bv32> := [
    0xf12f560e, 0xf5ee4bb9, 0xf8ad6d60, 0xfc6c70d7,
    0xe22b20d2, 0xe6ea3d65, 0xeba91bbc, 0xef68060b,
    0xd727bbb6, 0xd3e6a601, 0xdea580d8, 0xda649d6f,
    0xc423cd6a, 0xc0e2d0dd, 0xcda1f604, 0xc960ebb3
  ]
  const ROW11: seq<bv32> := [
    0xbd3e8d7e, 0xb9ff90c9, 0xb4bcb610, 0xb07daba7,
    0xae3afba2, 0xaafbe615, 0xa7b8c0cc, 0xa379dd7b,
    0x9b3660c6, 0x9ff77d71, 0x92b45ba8, 0x9675461f,
    0x8832161a, 0x8cf30bad, 0x81b02d74, 0x857130c3
  ]
  const ROW12: seq<bv32> := [
    0x5d8a9099, 0x594b8d2e, 0x5408abf7, 0x50c9b640,
    0x4e8ee645, 0x4a4ffbf2, 0x470cdd2b, 0x43cdc09c,
    0x7b827d21, 0x7f436096, 0x7200464f, 0x76c15bf8,
    0x68860bfd, 0x6c47164a, 0x61043093, 0x65c52d24
  ]
  const ROW13: seq<bv32> := [
    0x119b4be9, 0x155a565e, 0x18197087, 0x1cd86d30,
    0x029f3d35, 0x065e2082, 0x0b1d065b, 0x0fdc1bec,
    0x3793a651, 0x3352bbe6, 0x3e119d3f, 0x3ad08088,
    0x2497d08d, 0x2056cd3a, 0x2d15ebe3, 0x29d4f654
  ]
  const ROW14: seq<bv32> := [
    0xc5a92679, 0xc1683bce, 0xcc2b1d17, 0xc8ea00a0,
    0xd6ad50a5, 0xd26c4d12, 0xdf2f6bcb, 0xdbee767c,
    0xe3a1cbc1, 0xe760d676, 0xea23f0af, 0xeee2ed18,
    0xf0a5bd1d, 0xf464a0aa, 0xf9278673, 0xfde69bc4
  ]
  const ROW15: seq<bv32> := [
    0x89b8fd09, 0x8d79e0be, 0x803ac667, 0x84fbdbd0,
    0x9abc8bd5, 0x9e7d9662, 0x933eb0bb, 0x97ffad0c,
    0xafb010b1, 0xab710d06, 0xa6322bdf, 0xa2f33668,
    0xbcb4666d, 0xb8757bda, 0xb5365d03, 0xb1f740b4
  ]

  const ROWS: seq<seq<bv32>> := [
    ROW0, ROW1, ROW2, ROW3, ROW4, ROW5, ROW6, ROW7,
    ROW8, ROW9, ROW10, ROW11, ROW12, ROW13, ROW14, ROW15
  ]

  /** crc32_table[x]. */
  function Table(x: bv32): bv32
    requires x < 256
  {
    ROWS[(x >> 4) as nat][(x & 15) as nat]
  }

  function Index(c: bv32, o: octet): (x: bv32)
    ensures x < 256
  {
    XorBits(Shr24(c), o as bv32) & 255
  }

  /** The loop body of xcrc32. */
  function TableStep(c: Word, o: octet): Word {
    Word(XorBits(Shl8(c.bits), Table(Index(c.bits, o))))
  }

  /** xcrc32. */
  method XCrc32(buf: array<octet>, len: nat, init: Word) returns (crc: Word)
    requires len <= buf.Length
    ensures crc == Crc(buf[..len], init)
  {
    crc := init;
    var at := 0;
    while at < len
      invariant 0 <= at <= len && crc == Crc(buf[..at], init)
    {
      ByteAtOnce(crc, buf[at]);
      CrcSnoc(buf[..at], buf[at], init);
      assert buf[..at + 1] == buf[..at] + [buf[at]];
      crc := TableStep(crc, buf[at]);
      at := at + 1;
    }
  }

  // ---- every table entry is what its generator computes ----

  lemma OneOfSixteen(i: bv32)
    requires i < 16
    ensures i == 0 || i == 1 || i == 2 || i == 3 || i == 4 || i == 5 || i == 6 || i == 7
         || i == 8 || i == 9 || i == 10 || i == 11 || i == 12 || i == 13 || i == 14 || i == 15
  {
  }

  lemma Row0(i: bv32)
    requires i < 16
    ensures ROW0[i as nat] == EightRounds((0 + i) << 24)
  {
    if i < 8 {
      FirstHalfRow(i);
    } else {
      SecondHalfRow(i);
    }
  }

  lemma FirstHalfRow(i: bv32)
    requires i < 8
    ensures ROW0[i as nat] == EightRounds(i << 24)
  {
    assert i == 0 || i == 1 || i == 2 || i == 3 || i == 4 || i == 5 || i == 6 || i == 7;
  }

  lemma SecondHalfRow(i: bv32)
    requires 8 <= i < 16
    ensures ROW0[i as nat] == EightRounds(i << 24)
  {
    assert i == 8 || i == 9 || i == 10 || i == 11 || i == 12 || i == 13 || i == 14 || i == 15;
  }

  lemma Row1(i: bv32)
    requires i < 16
    ensures ROW1[i as nat] == EightRounds((16 + i) << 24)
  {
    OneOfSixteen(i);
  }

  lemma Row2(i: bv32)
    requires i < 16
    ensures ROW2[i as nat] == EightRounds((32 + i) << 24)
  {
    OneOfSixteen(i);
  }

  lemma Row3(i: bv32)
    requires i < 16
    ensures ROW3[i as nat] == EightRounds((48 + i) << 24)
  {
    OneOfSixteen(i);
  }

  lemma Row4(i: bv32)
    requires i < 16
    ensures ROW4[i as nat] == EightRounds((64 + i) << 24)
  {
    OneOfSixteen(i);
  }

  lemma Row5(i: bv32)
    requires i < 16
    ensures ROW5[i as nat] == EightRounds((80 + i) << 24)
  {
    OneOfSixteen(i);
  }

  lemma Row6(i: bv32)
    requires i < 16
    ensures ROW6[i as nat] == EightRounds((96 + i) << 24)
  {
    OneOfSixteen(i);
  }

  lemma Row7(i: bv32)
    requires i < 16
    ensures ROW7[i as nat] == EightRounds((112 + i) << 24)
  {
    OneOfSixteen(i);
  }

  lemma Row8(i: bv32)
    requires i < 16
    ensures ROW8[i as nat] == EightRounds((128 + i) << 24)
  {
    OneOfSixteen(i);
  }

  lemma Row9(i: bv32)
    requires i < 16
    ensures ROW9[i as nat] == EightRounds((144 + i) << 24)
  {
    OneOfSixteen(i);
  }

  lemma Row10(i: bv32)
    requires i < 16
    ensures ROW10[i as nat] == EightRounds((160 + i) << 24)
  {
    OneOfSixteen(i);
  }

  lemma Row11(i: bv32)
    requires i < 16
    ensures ROW11[i as nat] == EightRounds((176 + i) << 24)
  {
    OneOfSixteen(i);
  }

  lemma Row12(i: bv32)
    requires i < 16
    ensures ROW12[i as nat] == EightRounds((192 + i) << 24)
  {
    OneOfSixteen(i);
  }

  lemma Row13(i: bv32)
    requires i < 16
    ensures ROW13[i as nat] == EightRounds((208 + i) << 24)
  {
    OneOfSixteen(i);
  }

  lemma Row14(i: bv32)
    requires i < 16
    ensures ROW14[i as nat] == EightRounds((224 + i) << 24)
  {
    OneOfSixteen(i);
  }

  lemma Row15(i: bv32)
    requires i < 16
    ensures ROW15[i as nat] == EightRounds((240 + i) << 24)
  {
    OneOfSixteen(i);
  }

  lemma LowerHalf(x: bv32, i: bv32)
    requires x < 128 && i == x & 15
    ensures Table(x) == EightRounds(Shl24(x))
  {
    OneOfSixteen(x >> 4);
    if x >> 4 == 0 {
      assert x == 0 + i;
      Row0(i);
    } else if x >> 4 == 1 {
      assert x == 16 + i;
      Row1(i);
    } else if x >> 4 == 2 {
      assert x == 32 + i;
      Row2(i);
    } else if x >> 4 == 3 {
      assert x == 48 + i;
      Row3(i);
    } else if x >> 4 == 4 {
      assert x == 64 + i;
      Row4(i);
    } else if x >> 4 == 5 {
      assert x == 80 + i;
      Row5(i);
    } else if x >> 4 == 6 {
      assert x == 96 + i;
      Row6(i);
    } else if x >> 4 == 7 {
      assert x == 112 + i;
      Row7(i);
    }
  }

  lemma UpperHalf(x: bv32, i: bv32)
    requires 128 <= x < 256 && i == x & 15
    ensures Table(x) == EightRounds(Shl24(x))
  {
    OneOfSixteen(x >> 4);
    if x >> 4 == 8 {
      assert x == 128 + i;
      Row8(i);
    } else if x >> 4 == 9 {
      assert x == 144 + i;
      Row9(i);
    } else if x >> 4 == 10 {
      assert x == 160 + i;
      Row10(i);
    } else if x >> 4 == 11 {
      assert x == 176 + i;
      Row11(i);
    } else if x >> 4 == 12 {
      assert x == 192 + i;
      Row12(i);
    } else if x >> 4 == 13 {
      assert x == 208 + i;
      Row13(i);
    } else if x >> 4 == 14 {
      assert x == 224 + i;
      Row14(i);
    } else if x >> 4 == 15 {
      assert x == 240 + i;
      Row15(i);
    }
  }

  lemma TableIsGenerated(x: bv32)
    requires x < 256
    ensures Table(x) == EightRounds(Shl24(x))
  {
    if x < 128 {
      LowerHalf(x, x & 15);
    } else {
      UpperHalf(x, x & 15);
    }
  }

  // ---- rounds are linear, and only zero goes to zero ----

  function Shift(c: Word): Word {
    Word(Round(c.bits))
  }

  function Steps(c: Word, n: nat): Word
    decreases n, c
  {
    if n == 0 then c else Steps(Shift(c), n - 1)
  }

  lemma TopXor(a: bv32, b: bv32)
    ensures Top(XorBits(a, b)) <==> Top(a) != Top(b)
  {
  }

  lemma Shl1Xor(a: bv32, b: bv32)
    ensures Shl1(XorBits(a, b)) == XorBits(Shl1(a), Shl1(b))
  {
  }

  lemma XorAssoc(a: bv32, b: bv32, c: bv32)
    ensures XorBits(XorBits(a, b), c) == XorBits(a, XorBits(b, c))
  {
  }

  lemma XorSwap(a: bv32, b: bv32)
    ensures XorBits(a, b) == XorBits(b, a)
  {
  }

  lemma XorSelf(a: bv32)
    ensures XorBits(a, a) == 0 && XorBits(a, 0) == a && XorBits(0, a) == a
  {
  }

  lemma XorSame(a: bv32, b: bv32)
    ensures XorBits(a, b) == 0 <==> a == b
  {
    XorAssoc(a, b, b);
    XorSelf(a);
    XorSelf(b);
  }

  lemma XorLast(a: bv32, b: bv32, c: bv32)
    ensures XorBits(XorBits(a, b), c) == XorBits(XorBits(a, c), b)
  {
    XorAssoc(a, b, c);
    XorSwap(b, c);
    XorAssoc(a, c, b);
  }

  lemma XorCross(a: bv32, b: bv32, c: bv32, d: bv32)
    ensures XorBits(XorBits(a, b), XorBits(c, d)) == XorBits(XorBits(a, c), XorBits(b, d))
  {
    XorAssoc(a, b, XorBits(c, d));
    XorAssoc(b, c, d);
    XorSwap(b, c);
    XorAssoc(c, b, d);
    XorAssoc(a, c, XorBits(b, d));
  }

  lemma XorCancel(x: bv32, y: bv32, p: bv32)
    ensures XorBits(XorBits(x, p), XorBits(y, p)) == XorBits(x, y)
  {
    XorCross(x, p, y, p);
    XorSelf(p);
    XorSelf(XorBits(x, y));
  }

  lemma RoundXor(a: bv32, b: bv32)
    ensures Round(XorBits(a, b)) == XorBits(Round(a), Round(b))
  {
    TopXor(a, b);
    Shl1Xor(a, b);
    var x, y := Shl1(a), Shl1(b);
    if Top(a) && Top(b) {
      XorCancel(x, y, POLY);
    } else if Top(a) {
      XorLast(x, POLY, y);
    } else if Top(b) {
      XorAssoc(x, y, POLY);
    }
  }

  lemma ShiftXor(a: Word, b: Word)
    ensures Shift(Xor(a, b)) == Xor(Shift(a), Shift(b))
  {
    RoundXor(a.bits, b.bits);
  }

  lemma {:induction false} StepsXor(a: Word, b: Word, n: nat)
    ensures Steps(Xor(a, b), n) == Xor(Steps(a, n), Steps(b, n))
    decreases n
  {
    if n > 0 {
      ShiftXor(a, b);
      StepsXor(Shift(a), Shift(b), n - 1);
    }
  }

  lemma RoundOfNonzero(c: bv32)
    ensures Round(c) == 0 ==> c == 0
  {
  }

  lemma {:induction false} OnlyZeroToZero(c: Word, n: nat)
    requires Steps(c, n) == ZERO
    ensures c == ZERO
    decreases n
  {
    if n > 0 {
      OnlyZeroToZero(Shift(c), n - 1);
      RoundOfNonzero(c.bits);
    }
  }

  /** Eight steps at once, as a table entry takes them. */
  lemma EightSteps(c: Word)
    ensures Steps(c, 8) == Word(EightRounds(c.bits))
  {
    FourSteps(c, 4);
    FourSteps(Shift(Shift(Shift(Shift(c)))), 0);
  }

  lemma FourSteps(c: Word, n: nat)
    ensures Steps(c, n + 4) == Steps(Shift(Shift(Shift(Shift(c)))), n)
  {
    assert Steps(c, n + 4) == Steps(Shift(Shift(c)), n + 2);
  }

  lemma RoundsOfLow(c: bv32)
    requires c < 0x0100_0000
    ensures EightRounds(c) == Shl8(c)
  {
  }

  // ---- a byte at a time is eight bits at a time ----

  /** A byte in the top of a word. */
  function Hi(o: octet): Word {
    Word(Shl24(o as bv32))
  }

  function Up(w: Word): Word {
    Word(Shl1(w.bits))
  }

  lemma PeelBit(c: Word, w: Word)
    ensures Shift(Xor(c, w)) == Xor(FeedBit(c, Top(w.bits)), Up(w))
  {
    PeelBits32(c.bits, w.bits);
  }

  lemma PeelBits32(c: bv32, w: bv32)
    ensures Round(XorBits(c, w)) == XorBits(Register(c, Top(w)), Shl1(w))
  {
    TopXor(c, w);
    Shl1Xor(c, w);
    if Top(c) != Top(w) {
      XorLast(Shl1(c), POLY, Shl1(w));
    }
  }

  /** The n top bits of w, and what is left of w below them. */
  function TopBits(w: Word, n: nat): seq<bool>
    decreases n, w
  {
    if n == 0 then [] else [Top(w.bits)] + TopBits(Up(w), n - 1)
  }

  function BelowTop(w: Word, n: nat): Word
    decreases n, w
  {
    if n == 0 then w else BelowTop(Up(w), n - 1)
  }

  lemma {:induction false} PeelBits(c: Word, w: Word, n: nat)
    ensures Steps(Xor(c, w), n) == Xor(FeedBits(c, TopBits(w, n)), BelowTop(w, n))
    decreases n
  {
    if n > 0 {
      PeelBit(c, w);
      PeelBits(FeedBit(c, Top(w.bits)), Up(w), n - 1);
      FeedMore(c, Top(w.bits), TopBits(Up(w), n - 1));
    }
  }

  lemma FeedMore(c: Word, b: bool, bits: seq<bool>)
    ensures FeedBits(c, [b] + bits) == FeedBits(FeedBit(c, b), bits)
  {
    assert ([b] + bits)[1..] == bits;
  }

  lemma TopByte(o: octet)
    ensures TopBits(Hi(o), 8) == Bits(o) && BelowTop(Hi(o), 8) == ZERO
  {
    FourTops(Hi(o), 4);
    FourTops(Up(Up(Up(Up(Hi(o))))), 0);
    TopsOfByte(Hi(o).bits, o);
  }

  lemma FourTops(w: Word, n: nat)
    ensures var w2 := Up(Up(w));
            && TopBits(w, n + 4) == [Top(w.bits), Top(Up(w).bits), Top(w2.bits), Top(Up(w2).bits)] + TopBits(Up(Up(w2)), n)
            && BelowTop(w, n + 4) == BelowTop(Up(Up(w2)), n)
  {
    TwoTops(w, n + 2);
    TwoTops(Up(Up(w)), n);
  }

  lemma TwoTops(w: Word, n: nat)
    ensures TopBits(w, n + 2) == [Top(w.bits), Top(Up(w).bits)] + TopBits(Up(Up(w)), n)
    ensures BelowTop(w, n + 2) == BelowTop(Up(Up(w)), n)
  {
  }

  lemma TopsOfByte(w: bv32, o: octet)
    requires w == Shl24(o as bv32)
    ensures var w2 := Shl1(Shl1(w)); var w4 := Shl1(Shl1(w2)); var w6 := Shl1(Shl1(w4));
            && [Top(w), Top(Shl1(w)), Top(w2), Top(Shl1(w2)), Top(w4), Top(Shl1(w4)), Top(w6), Top(Shl1(w6))] == Bits(o)
            && Shl1(Shl1(w6)) == 0
  {
  }

  lemma FeedByte(c: Word, o: octet)
    ensures Feed(c, o) == Steps(Xor(c, Hi(o)), 8)
  {
    PeelBits(c, Hi(o), 8);
    TopByte(o);
    XorZero(Feed(c, o));
  }

  lemma XorZero(a: Word)
    ensures Xor(a, ZERO) == a && Xor(ZERO, a) == a && Xor(a, a) == ZERO
  {
    XorSelf(a.bits);
  }

  /** One table step takes in a whole byte. */
  lemma ByteAtOnce(c: Word, o: octet)
    ensures Feed(c, o) == TableStep(c, o)
  {
    FeedByte(c, o);
    var x := Index(c.bits, o);
    var entry, rest := Word(Shl24(x)), Word(Low24(c.bits));
    IndexAndRest(c.bits, o);
    LowRest(c.bits);
    StepsXor(entry, rest, 8);
    EightSteps(entry);
    EightSteps(rest);
    TableIsGenerated(x);
    RoundsOfLow(rest.bits);
    XorSwap(Table(x), Shl8(c.bits));
  }

  function Low24(c: bv32): bv32 {
    c & 0x00ff_ffff
  }

  lemma IndexAndRest(c: bv32, o: octet)
    ensures XorBits(c, Shl24(o as bv32)) == XorBits(Shl24(Index(c, o)), Low24(c))
  {
    HighAndLow(c);
    IndexUp(c, o);
    XorParts(c, Shl24(Shr24(c)), Low24(c), Shl24(o as bv32));
  }

  lemma XorParts(c: bv32, high: bv32, low: bv32, o: bv32)
    requires XorBits(high, low) == c
    ensures XorBits(c, o) == XorBits(XorBits(high, o), low)
  {
    XorLast(high, low, o);
  }

  lemma HighAndLow(c: bv32)
    ensures XorBits(Shl24(Shr24(c)), Low24(c)) == c
  {
  }

  lemma IndexUp(c: bv32, o: octet)
    ensures Shl24(Index(c, o)) == XorBits(Shl24(Shr24(c)), Shl24(o as bv32))
  {
  }

  lemma LowRest(c: bv32)
    ensures Low24(c) < 0x0100_0000 && Shl8(Low24(c)) == Shl8(c)
  {
  }

  lemma {:induction false} CrcAppend(a: seq<octet>, b: seq<octet>, init: Word)
    ensures Crc(a + b, init) == Crc(b, Crc(a, init))
    decreases |a|
  {
    if a == [] {
      assert a + b == b;
    } else {
      assert (a + b)[1..] == a[1..] + b;
      CrcAppend(a[1..], b, Feed(init, a[0]));
    }
  }

  lemma CrcSnoc(a: seq<octet>, o: octet, init: Word)
    ensures Crc(a + [o], init) == Feed(Crc(a, init), o)
  {
    CrcAppend(a, [o], init);
    assert [o][1..] == [];
  }

  // ---- what the CRC detects ----

  /** Byte by byte differences, each in the top of a word. */
  function Differences(a: seq<octet>, b: seq<octet>): seq<Word>
    requires |a| == |b|
  {
    if a == [] then [] else [Xor(Hi(a[0]), Hi(b[0]))] + Differences(a[1..], b[1..])
  }

  /** How a difference of registers moves on through differences of data. */
  function Drift(d: Word, es: seq<Word>): Word
    decreases |es|
  {
    if es == [] then d else Drift(Steps(Xor(d, es[0]), 8), es[1..])
  }

  lemma FeedDifference(c: Word, c': Word, o: octet, o': octet)
    ensures Xor(Feed(c, o), Feed(c', o')) == Steps(Xor(Xor(c, c'), Xor(Hi(o), Hi(o'))), 8)
  {
    FeedByte(c, o);
    FeedByte(c', o');
    StepsXor(Xor(c, Hi(o)), Xor(c', Hi(o')), 8);
    XorRegroup(c, Hi(o), c', Hi(o'));
  }

  lemma XorRegroup(a: Word, b: Word, c: Word, d: Word)
    ensures Xor(Xor(a, b), Xor(c, d)) == Xor(Xor(a, c), Xor(b, d))
  {
    XorCross(a.bits, b.bits, c.bits, d.bits);
  }

  /** The CRC is linear: the difference of two results depends on the differences alone. */
  lemma {:induction false} CrcDrift(a: seq<octet>, a': seq<octet>, c: Word, c': Word)
    requires |a| == |a'|
    ensures Xor(Crc(a, c), Crc(a', c')) == Drift(Xor(c, c'), Differences(a, a'))
    decreases |a|
  {
    if a != [] {
      FeedDifference(c, c', a[0], a'[0]);
      CrcDrift(a[1..], a'[1..], Feed(c, a[0]), Feed(c', a'[0]));
    }
  }

  lemma SameIffNoDifference(a: Word, b: Word)
    ensures a == b <==> Xor(a, b) == ZERO
  {
    XorSame(a.bits, b.bits);
  }

  /** Feeding the same data keeps registers apart that are apart. */
  lemma {:induction false} CrcKeepsApart(bytes: seq<octet>, c: Word, c': Word)
    requires c != c'
    ensures Crc(bytes, c) != Crc(bytes, c')
    decreases |bytes|
  {
    if bytes != [] {
      var o := bytes[0];
      FeedDifference(c, c', o, o);
      XorZero(Hi(o));
      XorZero(Xor(c, c'));
      SameIffNoDifference(c, c');
      SameIffNoDifference(Feed(c, o), Feed(c', o));
      if Feed(c, o) == Feed(c', o) {
        OnlyZeroToZero(Xor(c, c'), 8);
      }
      CrcKeepsApart(bytes[1..], Feed(c, o), Feed(c', o));
    }
  }

  /** The top k bytes of d hold all of it. */
  predicate InTop(d: Word, k: nat) {
    match k
    case 0 => d.bits == 0
    case 1 => d.bits & 0x00ff_ffff == 0
    case 2 => d.bits & 0x0000_ffff == 0
    case 3 => d.bits & 0x0000_00ff == 0
    case _ => true
  }

  function Shr8(c: bv32): bv32 {
    c >> 8
  }

  function Down8(y: Word): Word {
    Word(Shr8(y.bits))
  }

  /** Going back one byte from a difference within the top three: eight steps had only
      shifted it, and the byte difference came in on top. */
  lemma BackOneByte(d: Word, e: Word, k: nat)
    requires k <= 3 && InTop(Steps(Xor(d, e), 8), k) && InTop(e, 1)
    ensures d == Xor(Down8(Steps(Xor(d, e), 8)), e) && InTop(d, k + 1)
  {
    var x := Xor(d, e);
    var y := Steps(x, 8);
    var low := Down8(y);
    DownUp(y, k);
    RoundsOfLow(low.bits);
    EightSteps(low);
    StepsXor(x, low, 8);
    SameIffNoDifference(y, Steps(low, 8));
    OnlyZeroToZero(Xor(x, low), 8);
    SameIffNoDifference(x, low);
    XorAside(d, e, low);
    TopGrows(low, e, k);
  }

  lemma DownUp(y: Word, k: nat)
    requires k <= 3 && InTop(y, k)
    ensures Down8(y).bits < 0x0100_0000 && Shl8(Down8(y).bits) == y.bits
    ensures k == 0 ==> Down8(y) == ZERO
  {
  }

  lemma XorAside(d: Word, e: Word, x: Word)
    ensures Xor(d, e) == x ==> d == Xor(x, e)
  {
    XorAssoc(d.bits, e.bits, e.bits);
    XorSelf(e.bits);
    XorSelf(d.bits);
  }

  lemma TopGrows(low: Word, e: Word, k: nat)
    requires k <= 3 && InTop(Word(Shl8(low.bits)), k) && low.bits < 0x0100_0000 && InTop(e, 1)
    ensures InTop(Xor(low, e), k + 1)
  {
  }

  lemma NothingLeft(d1: Word, d2: Word, d3: Word, e0: Word, e1: Word, e2: Word, e3: Word)
    requires InTop(e0, 1) && InTop(e1, 1) && InTop(e2, 1) && InTop(e3, 1)
    requires d3 == Xor(Down8(ZERO), e3) && d2 == Xor(Down8(d3), e2) && d1 == Xor(Down8(d2), e1) && ZERO == Xor(Down8(d1), e0)
    ensures e0 == e1 == e2 == e3 == ZERO
  {
  }

  /** Four byte differences that leave registers equal are no differences. */
  lemma FourDifferences(e0: Word, e1: Word, e2: Word, e3: Word)
    requires InTop(e0, 1) && InTop(e1, 1) && InTop(e2, 1) && InTop(e3, 1)
    requires Drift(ZERO, [e0, e1, e2, e3]) == ZERO
    ensures e0 == e1 == e2 == e3 == ZERO
  {
    var d1 := Steps(Xor(ZERO, e0), 8);
    var d2 := Steps(Xor(d1, e1), 8);
    var d3 := Steps(Xor(d2, e2), 8);
    DriftOfFour(ZERO, [e0, e1, e2, e3]);
    BackOneByte(d3, e3, 0);
    BackOneByte(d2, e2, 1);
    BackOneByte(d1, e1, 2);
    BackOneByte(ZERO, e0, 3);
    NothingLeft(d1, d2, d3, e0, e1, e2, e3);
  }

  lemma DriftOfFour(d: Word, es: seq<Word>)
    requires |es| >= 4
    ensures Drift(d, es) == Drift(Steps(Xor(Steps(Xor(Steps(Xor(Steps(Xor(d, es[0]), 8), es[1]), 8), es[2]), 8), es[3]), 8), es[4..])
  {
    var d1 := Steps(Xor(d, es[0]), 8);
    var d2 := Steps(Xor(d1, es[1]), 8);
    var d3 := Steps(Xor(d2, es[2]), 8);
    Drops(es);
    assert Drift(d, es) == Drift(d1, es[1..]);
    assert Drift(d1, es[1..]) == Drift(d2, es[2..]);
    assert Drift(d2, es[2..]) == Drift(d3, es[3..]);
  }

  lemma Drops<T>(s: seq<T>)
    requires |s| >= 4
    ensures s[1..][1..] == s[2..] && s[2..][1..] == s[3..] && s[3..][1..] == s[4..]
  {
  }

  lemma WindowOfFour(w: seq<octet>, w': seq<octet>, c: Word)
    requires |w| == |w'| == 4 && w != w'
    ensures Crc(w, c) != Crc(w', c)
  {
    SameIffNoDifference(Crc(w, c), Crc(w', c));
    CrcDrift(w, w', c, c);
    XorZero(c);
    FourOfThem(w, w');
    var e0, e1, e2, e3 := Xor(Hi(w[0]), Hi(w'[0])), Xor(Hi(w[1]), Hi(w'[1])), Xor(Hi(w[2]), Hi(w'[2])), Xor(Hi(w[3]), Hi(w'[3]));
    OneByte(w[0], w'[0]);
    OneByte(w[1], w'[1]);
    OneByte(w[2], w'[2]);
    OneByte(w[3], w'[3]);
    if Crc(w, c) == Crc(w', c) {
      assert Differences(w, w') == [e0, e1, e2, e3];
      FourDifferences(e0, e1, e2, e3);
    }
  }

  lemma OneByte(o: octet, o': octet)
    ensures InTop(Xor(Hi(o), Hi(o')), 1)
    ensures Xor(Hi(o), Hi(o')) == ZERO ==> o == o'
  {
  }

  lemma FourOfThem(a: seq<octet>, b: seq<octet>)
    requires |a| == |b| >= 4
    ensures Differences(a, b) ==
            [Xor(Hi(a[0]), Hi(b[0])), Xor(Hi(a[1]), Hi(b[1])), Xor(Hi(a[2]), Hi(b[2])), Xor(Hi(a[3]), Hi(b[3]))]
              + Differences(a[4..], b[4..])
  {
    TwoOfThem(a, b);
    TwoOfThem(a[2..], b[2..]);
    assert a[2..][2..] == a[4..] && b[2..][2..] == b[4..];
  }

  lemma TwoOfThem(a: seq<octet>, b: seq<octet>)
    requires |a| == |b| >= 2
    ensures Differences(a, b) == [Xor(Hi(a[0]), Hi(b[0])), Xor(Hi(a[1]), Hi(b[1]))] + Differences(a[2..], b[2..])
  {
    assert a[1..][1..] == a[2..] && b[1..][1..] == b[2..];
  }

  /** Buffers of one length that differ only inside a window of at most four consecutive
      bytes never have the same CRC. */
  lemma WindowDetected(p: seq<octet>, w: seq<octet>, w': seq<octet>, s: seq<octet>, init: Word)
    requires |w| == |w'| <= 4 && w != w'
    ensures Crc(p + w + s, init) != Crc(p + w' + s, init)
  {
    // zeros behind both buffers make the window four bytes long
    var t := s + ZEROS;
    var n := 4 - |w|;
    var c := Crc(p, init);
    var v, v' := w + t[..n], w' + t[..n];
    assert v != v' by {
      assert v[..|w|] == w && v'[..|w|] == w';
    }
    WindowOfFour(v, v', c);
    CrcKeepsApart(t[n..], Crc(v, c), Crc(v', c));
    Padded(p, w, s, n, init);
    Padded(p, w', s, n, init);
  }

  const ZEROS: seq<octet> := [0, 0, 0, 0]

  lemma Padded(p: seq<octet>, w: seq<octet>, s: seq<octet>, n: nat, init: Word)
    requires n <= 4
    ensures var t := s + ZEROS;
            Crc(ZEROS, Crc(p + w + s, init)) == Crc(t[n..], Crc(w + t[..n], Crc(p, init)))
  {
    var t := s + ZEROS;
    CrcAppend(p + w + s, ZEROS, init);
    SetWindowApart(p, w, s, ZEROS, n);
    CrcAppend(p, (w + t[..n]) + t[n..], init);
    CrcAppend(w + t[..n], t[n..], Crc(p, init));
  }

  lemma SetWindowApart<T>(p: seq<T>, w: seq<T>, s: seq<T>, z: seq<T>, n: nat)
    requires n <= |s + z|
    ensures (p + w + s) + z == p + ((w + (s + z)[..n]) + (s + z)[n..])
  {
  }

  // ---- exactly which changes of five bytes are missed ----

  function Difference(a: octet, b: octet): octet {
    a ^ b
  }

  function BigEndian(a: octet, b: octet, c: octet, d: octet): bv32 {
    (a as bv32 << 24) | (b as bv32 << 16) | (c as bv32 << 8) | (d as bv32)
  }

  /** The changes of the last four bytes are, as a word, the table entry of that of the first. */
  predicate Missed(f: octet, a: octet, b: octet, c: octet, d: octet) {
    Table(f as bv32) == BigEndian(a, b, c, d)
  }

  /** Four byte differences, in a word of their own. */
  function Packed(e0: Word, e1: Word, e2: Word, e3: Word): Word {
    Xor(Down8(Xor(Down8(Xor(Down8(e3), e2)), e1)), e0)
  }

  /** One byte on: a difference within the top three bytes is shifted up to where it was. */
  lemma OnOneByte(y: Word, e: Word, k: nat)
    requires k <= 3 && InTop(y, k) && InTop(e, 1)
    ensures Steps(Xor(Xor(Down8(y), e), e), 8) == y && InTop(Xor(Down8(y), e), k + 1)
  {
    DownUp(y, k);
    XorAssoc(Down8(y).bits, e.bits, e.bits);
    XorSelf(e.bits);
    XorSelf(Down8(y).bits);
    RoundsOfLow(Down8(y).bits);
    EightSteps(Down8(y));
    TopGrows(Down8(y), e, k);
  }

  /** A difference of registers is undone by four differences of bytes exactly when it is those
      four in a word. */
  lemma FourUndo(d: Word, e0: Word, e1: Word, e2: Word, e3: Word)
    requires InTop(e0, 1) && InTop(e1, 1) && InTop(e2, 1) && InTop(e3, 1)
    ensures Drift(d, [e0, e1, e2, e3]) == ZERO <==> d == Packed(e0, e1, e2, e3)
  {
    var p3 := Xor(Down8(ZERO), e3);
    var p2 := Xor(Down8(p3), e2);
    var p1 := Xor(Down8(p2), e1);
    assert Down8(ZERO) == ZERO;
    XorZero(e3);
    OnOneByte(ZERO, e3, 0);
    OnOneByte(p3, e2, 1);
    OnOneByte(p2, e1, 2);
    OnOneByte(p1, e0, 3);
    var p0 := Packed(e0, e1, e2, e3);
    DriftOfFour(p0, [e0, e1, e2, e3]);
    DriftOfFour(d, [e0, e1, e2, e3]);
    if Drift(d, [e0, e1, e2, e3]) == ZERO {
      var d1 := Steps(Xor(d, e0), 8);
      var d2 := Steps(Xor(d1, e1), 8);
      var d3 := Steps(Xor(d2, e2), 8);
      BackOneByte(d3, e3, 0);
      BackOneByte(d2, e2, 1);
      BackOneByte(d1, e1, 2);
      BackOneByte(d, e0, 3);
    }
  }

  lemma PackedBytes(a: octet, b: octet, c: octet, d: octet)
    ensures Packed(Hi(a), Hi(b), Hi(c), Hi(d)) == Word(BigEndian(a, b, c, d))
  {
  }

  lemma HiDifference(a: octet, b: octet)
    ensures Xor(Hi(a), Hi(b)) == Hi(Difference(a, b))
  {
  }

  lemma HiInTop(a: octet)
    ensures InTop(Hi(a), 1)
  {
  }

  /** What a difference in one byte makes of equal registers: the table entry. */
  lemma OneByteOn(o: octet)
    ensures Steps(Xor(ZERO, Hi(o)), 8) == Word(Table(o as bv32))
  {
    XorZero(Hi(o));
    EightSteps(Hi(o));
    TableIsGenerated(o as bv32);
  }

  /** Exactly those changes of five bytes go unnoticed. */
  lemma FiveBytesCollideExactly(p: seq<octet>, w: seq<octet>, w': seq<octet>, s: seq<octet>, init: Word)
    requires |w| == |w'| == 5
    ensures Crc(p + w + s, init) == Crc(p + w' + s, init) <==>
            Missed(Difference(w[0], w'[0]), Difference(w[1], w'[1]), Difference(w[2], w'[2]), Difference(w[3], w'[3]), Difference(w[4], w'[4]))
  {
    SameCrcOfWindow(p, w, w', s, init);
    SameIffNoDrift(w, w', Crc(p, init));
    FiveOfThem(w, w');
    FiveUndo(Difference(w[0], w'[0]), Difference(w[1], w'[1]), Difference(w[2], w'[2]), Difference(w[3], w'[3]), Difference(w[4], w'[4]));
  }

  lemma SameIffNoDrift(w: seq<octet>, w': seq<octet>, c: Word)
    requires |w| == |w'|
    ensures Crc(w, c) == Crc(w', c) <==> Drift(ZERO, Differences(w, w')) == ZERO
  {
    SameIffNoDifference(Crc(w, c), Crc(w', c));
    CrcDrift(w, w', c, c);
    XorZero(c);
  }

  lemma SameCrcOfWindow(p: seq<octet>, w: seq<octet>, w': seq<octet>, s: seq<octet>, init: Word)
    ensures Crc(p + w + s, init) == Crc(p + w' + s, init) <==> Crc(w, Crc(p, init)) == Crc(w', Crc(p, init))
  {
    CrcAppend(p + w, s, init);
    CrcAppend(p, w, init);
    CrcAppend(p + w', s, init);
    CrcAppend(p, w', init);
    if Crc(w, Crc(p, init)) != Crc(w', Crc(p, init)) {
      CrcKeepsApart(s, Crc(w, Crc(p, init)), Crc(w', Crc(p, init)));
    }
  }

  lemma FiveOfThem(w: seq<octet>, w': seq<octet>)
    requires |w| == |w'| == 5
    ensures Differences(w, w') ==
            [Hi(Difference(w[0], w'[0]))] +
            [Hi(Difference(w[1], w'[1])), Hi(Difference(w[2], w'[2])), Hi(Difference(w[3], w'[3])), Hi(Difference(w[4], w'[4]))]
  {
    HiDifference(w[0], w'[0]);
    HiDifference(w[1], w'[1]);
    HiDifference(w[2], w'[2]);
    HiDifference(w[3], w'[3]);
    HiDifference(w[4], w'[4]);
    FourOfThem(w[1..], w'[1..]);
    assert Differences(w[1..][4..], w'[1..][4..]) == [];
  }

  lemma FiveUndo(f: octet, a: octet, b: octet, c: octet, d: octet)
    ensures Drift(ZERO, [Hi(f)] + [Hi(a), Hi(b), Hi(c), Hi(d)]) == ZERO <==> Missed(f, a, b, c, d)
  {
    var es := [Hi(a), Hi(b), Hi(c), Hi(d)];
    FirstDrift(ZERO, [Hi(f)] + es);
    assert ([Hi(f)] + es)[1..] == es;
    OneByteOn(f);
    HiInTop(a);
    HiInTop(b);
    HiInTop(c);
    HiInTop(d);
    FourUndo(Word(Table(f as bv32)), Hi(a), Hi(b), Hi(c), Hi(d));
    PackedBytes(a, b, c, d);
  }

  lemma FirstDrift(d: Word, es: seq<Word>)
    requires es != []
    ensures Drift(d, es) == Drift(Steps(Xor(d, es[0]), 8), es[1..])
  {
  }

  /** So four is the most: every five bytes have a change that leaves every CRC as it was, for
      one the generator polynomial itself. */
  lemma FiveBytesCanCollide(p: seq<octet>, w: seq<octet>, s: seq<octet>, init: Word)
    requires |w| == 5
    ensures Colliding(w) != w && Crc(p + w + s, init) == Crc(p + Colliding(w) + s, init)
  {
    FiveBytesCollideExactly(p, w, Colliding(w), s, init);
    Undone(w[0], 0x01);
    Undone(w[1], 0x04);
    Undone(w[2], 0xc1);
    Undone(w[3], 0x1d);
    Undone(w[4], 0xb7);
    TableOfOne();
    Moved(w[0]);
  }

  lemma TableOfOne()
    ensures Missed(0x01, 0x04, 0xc1, 0x1d, 0xb7)
  {
  }

  lemma Moved(o: octet)
    ensures Difference(o, 0x01) != o
  {
  }

  function Colliding(w: seq<octet>): seq<octet>
    requires |w| == 5
  {
    [Difference(w[0], 0x01), Difference(w[1], 0x04), Difference(w[2], 0xc1), Difference(w[3], 0x1d), Difference(w[4], 0xb7)]
  }

  lemma Undone(o: octet, e: octet)
    ensures Difference(o, Difference(o, e)) == e
  {
  }
}
