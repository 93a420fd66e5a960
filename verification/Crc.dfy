/** The CKTP checksum: a table-driven CRC over bytes. */
module Crc {
  import opened Arith
  import opened Bytes
  import opened CrcPoly

  /** The n low bits of a word, most significant first. */
  function LowBits(b: bv16, n: nat): (s: seq<bool>)
    ensures |s| == n
    decreases n
  {
    if n == 0 then [] else LowBits(b >> 1, n - 1) + [b & 1 == 1]
  }

  /** The n low bits of a number, most significant first. */
  function NumberBits(x: nat, n: nat): (s: seq<bool>)
    ensures |s| == n
    decreases n
  {
    if n == 0 then [] else NumberBits(x / 2, n - 1) + [x % 2 == 1]
  }

  function ByteBits(x: Octet): (s: seq<bool>)
    ensures |s| == 8
  {
    NumberBits(x, 8)
  }

  /** The message as bits, most significant bit of each byte first. */
  function Bits(data: seq<Octet>): (s: seq<bool>)
    ensures |s| == 8 * |data|
  {
    if data == [] then [] else Bits(data[..|data| - 1]) + ByteBits(data[|data| - 1])
  }

  /** The simple definition: the remainder of the message, followed by sixteen zeros, divided by the generator. */
  function Division(data: seq<Octet>): bv16
  {
    Remainder(0, Bits(data) + Zeros(16))
  }

  const ROW_0: seq<bv16> := [0x0000, 0x1021, 0x2042, 0x3063, 0x4084, 0x50A5, 0x60C6, 0x70E7,
                              0x8108, 0x9129, 0xA14A, 0xB16B, 0xC18C, 0xD1AD, 0xE1CE, 0xF1EF]
  const ROW_1: seq<bv16> := [0x1231, 0x0210, 0x3273, 0x2252, 0x52B5, 0x4294, 0x72F7, 0x62D6,
                              0x9339, 0x8318, 0xB37B, 0xA35A, 0xD3BD, 0xC39C, 0xF3FF, 0xE3DE]
  const ROW_2: seq<bv16> := [0x2462, 0x3443, 0x0420, 0x1401, 0x64E6, 0x74C7, 0x44A4, 0x5485,
                              0xA56A, 0xB54B, 0x8528, 0x9509, 0xE5EE, 0xF5CF, 0xC5AC, 0xD58D]
  const ROW_3: seq<bv16> := [0x3653, 0x2672, 0x1611, 0x0630, 0x76D7, 0x66F6, 0x5695, 0x46B4,
                              0xB75B, 0xA77A, 0x9719, 0x8738, 0xF7DF, 0xE7FE, 0xD79D, 0xC7BC]
  const ROW_4: seq<bv16> := [0x48C4, 0x58E5, 0x6886, 0x78A7, 0x0840, 0x1861, 0x2802, 0x3823,
                              0xC9CC, 0xD9ED, 0xE98E, 0xF9AF, 0x8948, 0x9969, 0xA90A, 0xB92B]
  const ROW_5: seq<bv16> := [0x5AF5, 0x4AD4, 0x7AB7, 0x6A96, 0x1A71, 0x0A50, 0x3A33, 0x2A12,
                              0xDBFD, 0xCBDC, 0xFBBF, 0xEB9E, 0x9B79, 0x8B58, 0xBB3B, 0xAB1A]
  const ROW_6: seq<bv16> := [0x6CA6, 0x7C87, 0x4CE4, 0x5CC5, 0x2C22, 0x3C03, 0x0C60, 0x1C41,
                              0xEDAE, 0xFD8F, 0xCDEC, 0xDDCD, 0xAD2A, 0xBD0B, 0x8D68, 0x9D49]
  const ROW_7: seq<bv16> := [0x7E97, 0x6EB6, 0x5ED5, 0x4EF4, 0x3E13, 0x2E32, 0x1E51, 0x0E70,
                              0xFF9F, 0xEFBE, 0xDFDD, 0xCFFC, 0xBF1B, 0xAF3A, 0x9F59, 0x8F78]
  const ROW_8: seq<bv16> := [0x9188, 0x81A9, 0xB1CA, 0xA1EB, 0xD10C, 0xC12D, 0xF14E, 0xE16F,
                              0x1080, 0x00A1, 0x30C2, 0x20E3, 0x5004, 0x4025, 0x7046, 0x6067]
  const ROW_9: seq<bv16> := [0x83B9, 0x9398, 0xA3FB, 0xB3DA, 0xC33D, 0xD31C, 0xE37F, 0xF35E,
                              0x02B1, 0x1290, 0x22F3, 0x32D2, 0x4235, 0x5214, 0x6277, 0x7256]
  const ROW_A: seq<bv16> := [0xB5EA, 0xA5CB, 0x95A8, 0x8589, 0xF56E, 0xE54F, 0xD52C, 0xC50D,
                              0x34E2, 0x24C3, 0x14A0, 0x0481, 0x7466, 0x6447, 0x5424, 0x4405]
  const ROW_B: seq<bv16> := [0xA7DB, 0xB7FA, 0x8799, 0x97B8, 0xE75F, 0xF77E, 0xC71D, 0xD73C,
                              0x26D3, 0x36F2, 0x0691, 0x16B0, 0x6657, 0x7676, 0x4615, 0x5634]
  const ROW_C: seq<bv16> := [0xD94C, 0xC96D, 0xF90E, 0xE92F, 0x99C8, 0x89E9, 0xB98A, 0xA9AB,
                              0x5844, 0x4865, 0x7806, 0x6827, 0x18C0, 0x08E1, 0x3882, 0x28A3]
  const ROW_D: seq<bv16> := [0xCB7D, 0xDB5C, 0xEB3F, 0xFB1E, 0x8BF9, 0x9BD8, 0xABBB, 0xBB9A,
                              0x4A75, 0x5A54, 0x6A37, 0x7A16, 0x0AF1, 0x1AD0, 0x2AB3, 0x3A92]
  const ROW_E: seq<bv16> := [0xFD2E, 0xED0F, 0xDD6C, 0xCD4D, 0xBDAA, 0xAD8B, 0x9DE8, 0x8DC9,
                              0x7C26, 0x6C07, 0x5C64, 0x4C45, 0x3CA2, 0x2C83, 0x1CE0, 0x0CC1]
  const ROW_F: seq<bv16> := [0xEF1F, 0xFF3E, 0xCF5D, 0xDF7C, 0xAF9B, 0xBFBA, 0x8FD9, 0x9FF8,
                              0x6E17, 0x7E36, 0x4E55, 0x5E74, 0x2E93, 0x3EB2, 0x0ED1, 0x1EF0]

  const TABLE: seq<seq<bv16>> := [ROW_0, ROW_1, ROW_2, ROW_3, ROW_4, ROW_5, ROW_6, ROW_7,
                                  ROW_8, ROW_9, ROW_A, ROW_B, ROW_C, ROW_D, ROW_E, ROW_F]

  function Lookup(b: bv16): bv16
    requires b < 0x100
  {
    assert (b >> 4) < 0x10 && (b & 0xF) < 0x10;
    TABLE[(b >> 4) as int][(b & 0xF) as int]
  }

  // ----- every entry is its index times x^16

  /** A row differs from the first row by a constant. */
  predicate RowOk(row: seq<bv16>, base: bv16)
    requires |row| == 16
  {
    && row[0] == Plus(base, 0x0000) && row[1] == Plus(base, 0x1021)
    && row[2] == Plus(base, 0x2042) && row[3] == Plus(base, 0x3063)
    && row[4] == Plus(base, 0x4084) && row[5] == Plus(base, 0x50A5)
    && row[6] == Plus(base, 0x60C6) && row[7] == Plus(base, 0x70E7)
    && row[8] == Plus(base, 0x8108) && row[9] == Plus(base, 0x9129)
    && row[10] == Plus(base, 0xA14A) && row[11] == Plus(base, 0xB16B)
    && row[12] == Plus(base, 0xC18C) && row[13] == Plus(base, 0xD1AD)
    && row[14] == Plus(base, 0xE1CE) && row[15] == Plus(base, 0xF1EF)
  }

  lemma {:induction false} Rows0()
    ensures RowOk(ROW_0, 0x0000) && RowOk(ROW_1, 0x1231)
  {
  }

  lemma {:induction false} Rows1()
    ensures RowOk(ROW_2, 0x2462) && RowOk(ROW_3, 0x3653)
  {
  }

  lemma {:induction false} Rows2()
    ensures RowOk(ROW_4, 0x48C4) && RowOk(ROW_5, 0x5AF5)
  {
  }

  lemma {:induction false} Rows3()
    ensures RowOk(ROW_6, 0x6CA6) && RowOk(ROW_7, 0x7E97)
  {
  }

  lemma {:induction false} Rows4()
    ensures RowOk(ROW_8, 0x9188) && RowOk(ROW_9, 0x83B9)
  {
  }

  lemma {:induction false} Rows5()
    ensures RowOk(ROW_A, 0xB5EA) && RowOk(ROW_B, 0xA7DB)
  {
  }

  lemma {:induction false} Rows6()
    ensures RowOk(ROW_C, 0xD94C) && RowOk(ROW_D, 0xCB7D)
  {
  }

  lemma {:induction false} Rows7()
    ensures RowOk(ROW_E, 0xFD2E) && RowOk(ROW_F, 0xEF1F)
  {
  }

  lemma {:induction false} Next16(a: bv16, b: bv16, x: bv16, y: bv16)
    requires Times(a, 16) == x && b == Shift(a) && y == Shift(x)
    ensures Times(b, 16) == y
  {
    hide Times, Shift;
    TimesShift(a, 16);
  }

  lemma {:induction false} Sum16(a: bv16, b: bv16, c: bv16, x: bv16, y: bv16, z: bv16)
    requires Times(a, 16) == x && Times(b, 16) == y && c == a ^ b && z == x ^ y
    ensures Times(c, 16) == z
  {
    hide Times, Shift;
    TimesLinear(a, b, 16);
  }

  lemma {:induction false} Basis()
    ensures Times(0x1, 16) == 0x1021 && Times(0x2, 16) == 0x2042 && Times(0x4, 16) == 0x4084 && Times(0x8, 16) == 0x8108
    ensures Times(0x10, 16) == 0x1231 && Times(0x20, 16) == 0x2462
    ensures Times(0x40, 16) == 0x48C4 && Times(0x80, 16) == 0x9188
  {
    hide Times;
    XToThe16();
    Next16(0x1, 0x2, 0x1021, 0x2042);
    Next16(0x2, 0x4, 0x2042, 0x4084);
    Next16(0x4, 0x8, 0x4084, 0x8108);
    Next16(0x8, 0x10, 0x8108, 0x1231);
    Next16(0x10, 0x20, 0x1231, 0x2462);
    Next16(0x20, 0x40, 0x2462, 0x48C4);
    Next16(0x40, 0x80, 0x48C4, 0x9188);
  }

  lemma {:induction false} LowNibbles()
    ensures Times(0x0, 16) == 0x0000 && Times(0x1, 16) == 0x1021 && Times(0x2, 16) == 0x2042 && Times(0x3, 16) == 0x3063
    ensures Times(0x4, 16) == 0x4084 && Times(0x5, 16) == 0x50A5 && Times(0x6, 16) == 0x60C6 && Times(0x7, 16) == 0x70E7
    ensures Times(0x8, 16) == 0x8108 && Times(0x9, 16) == 0x9129 && Times(0xA, 16) == 0xA14A && Times(0xB, 16) == 0xB16B
    ensures Times(0xC, 16) == 0xC18C && Times(0xD, 16) == 0xD1AD && Times(0xE, 16) == 0xE1CE && Times(0xF, 16) == 0xF1EF
  {
    hide Times, Shift;
    Basis();
    ZeroTimes(16);
    Sum16(0x2, 0x1, 0x3, 0x2042, 0x1021, 0x3063);
    Sum16(0x4, 0x1, 0x5, 0x4084, 0x1021, 0x50A5);
    Sum16(0x4, 0x2, 0x6, 0x4084, 0x2042, 0x60C6);
    Sum16(0x4, 0x3, 0x7, 0x4084, 0x3063, 0x70E7);
    Sum16(0x8, 0x1, 0x9, 0x8108, 0x1021, 0x9129);
    Sum16(0x8, 0x2, 0xA, 0x8108, 0x2042, 0xA14A);
    Sum16(0x8, 0x3, 0xB, 0x8108, 0x3063, 0xB16B);
    Sum16(0x8, 0x4, 0xC, 0x8108, 0x4084, 0xC18C);
    Sum16(0x8, 0x5, 0xD, 0x8108, 0x50A5, 0xD1AD);
    Sum16(0x8, 0x6, 0xE, 0x8108, 0x60C6, 0xE1CE);
    Sum16(0x8, 0x7, 0xF, 0x8108, 0x70E7, 0xF1EF);
  }

  lemma {:induction false} HighNibbles()
    ensures Times(0x0, 16) == 0x0000 && Times(0x10, 16) == 0x1231
    ensures Times(0x20, 16) == 0x2462 && Times(0x30, 16) == 0x3653
    ensures Times(0x40, 16) == 0x48C4 && Times(0x50, 16) == 0x5AF5
    ensures Times(0x60, 16) == 0x6CA6 && Times(0x70, 16) == 0x7E97
    ensures Times(0x80, 16) == 0x9188 && Times(0x90, 16) == 0x83B9
    ensures Times(0xA0, 16) == 0xB5EA && Times(0xB0, 16) == 0xA7DB
    ensures Times(0xC0, 16) == 0xD94C && Times(0xD0, 16) == 0xCB7D
    ensures Times(0xE0, 16) == 0xFD2E && Times(0xF0, 16) == 0xEF1F
  {
    hide Times, Shift;
    Basis();
    ZeroTimes(16);
    Sum16(0x20, 0x10, 0x30, 0x2462, 0x1231, 0x3653);
    Sum16(0x40, 0x10, 0x50, 0x48C4, 0x1231, 0x5AF5);
    Sum16(0x40, 0x20, 0x60, 0x48C4, 0x2462, 0x6CA6);
    Sum16(0x40, 0x30, 0x70, 0x48C4, 0x3653, 0x7E97);
    Sum16(0x80, 0x10, 0x90, 0x9188, 0x1231, 0x83B9);
    Sum16(0x80, 0x20, 0xA0, 0x9188, 0x2462, 0xB5EA);
    Sum16(0x80, 0x30, 0xB0, 0x9188, 0x3653, 0xA7DB);
    Sum16(0x80, 0x40, 0xC0, 0x9188, 0x48C4, 0xD94C);
    Sum16(0x80, 0x50, 0xD0, 0x9188, 0x5AF5, 0xCB7D);
    Sum16(0x80, 0x60, 0xE0, 0x9188, 0x6CA6, 0xFD2E);
    Sum16(0x80, 0x70, 0xF0, 0x9188, 0x7E97, 0xEF1F);
  }

  lemma {:induction false} NibbleCases(l: bv16)
    requires l < 0x10
    ensures l == 0x0 || l == 0x1 || l == 0x2 || l == 0x3 || l == 0x4 || l == 0x5 || l == 0x6 || l == 0x7
         || l == 0x8 || l == 0x9 || l == 0xA || l == 0xB || l == 0xC || l == 0xD || l == 0xE || l == 0xF
  {
  }

  lemma {:induction false} RowEntry(row: seq<bv16>, base: bv16, l: bv16)
    requires |row| == 16 && RowOk(row, base) && l < 0x10
    ensures row[l as int] == Plus(base, Times(l, 16))
  {
    hide Times, Plus;
    LowNibbles();
    NibbleCases(l);
  }

  lemma {:induction false} RowBase(h: bv16)
    requires h < 0x10
    ensures |TABLE| == 16 && |TABLE[h as int]| == 16 && RowOk(TABLE[h as int], Times(h << 4, 16))
  {
    hide Times, RowOk;
    HighNibbles();
    NibbleCases(h);
    Rows0();
    Rows1();
    Rows2();
    Rows3();
    Rows4();
    Rows5();
    Rows6();
    Rows7();
  }

  lemma {:induction false} Nibbles(b: bv16)
    requires b < 0x100
    ensures (b >> 4) < 0x10 && (b & 0xF) < 0x10 && b == Plus((b >> 4) << 4, b & 0xF)
  {
  }

  lemma {:induction false} TableCorrect(b: bv16)
    requires b < 0x100
    ensures Lookup(b) == Times(b, 16)
  {
    hide Times, RowOk, Plus, TABLE;
    Nibbles(b);
    var h, l := b >> 4, b & 0xF;
    RowBase(h);
    RowEntry(TABLE[h as int], Times(h << 4, 16), l);
    TimesLinear(h << 4, l, 16);
  }

  // ----- one byte

  lemma {:induction false} BitIn(c: bv16, b: bool)
    requires c < 0x100 && b == (c & 1 == 1)
    ensures Plus(Shift(c >> 1), Low(b)) == c
  {
    hide Shift;
    assert (c >> 1) >> 15 == 0;
    ShiftByGenerator(c >> 1);
    assert ((c >> 1) << 1) ^ (c & 1) == c;
    assert c & 1 == 0 || c & 1 == 1;
  }

  lemma {:induction false} RemainderSnoc(r: bv16, s: seq<bool>, b: bool)
    ensures Remainder(r, s + [b]) == Plus(Shift(Remainder(r, s)), Low(b))
    decreases s
  {
    hide Shift, Plus, Low;
    if s == [] {
      assert s + [b] == [b] && [b][1..] == [];
    } else {
      assert (s + [b])[1..] == s[1..] + [b];
      RemainderSnoc(Plus(Shift(r), Low(s[0])), s[1..], b);
    }
  }

  /** Nothing is left of b after dropping n bits. */
  predicate Short(b: bv16, n: nat)
    decreases n
  {
    if n == 0 then b == 0 else Short(b >> 1, n - 1)
  }

  lemma {:induction false} Half(b: bv16)
    requires b < 0x100
    ensures b >> 1 < 0x80
  {
  }

  lemma {:induction false} BytesAreShort(b: bv16)
    requires b < 0x100
    ensures Short(b, 8)
  {
    var b1 := b >> 1;
    var b2 := b1 >> 1;
    var b3 := b2 >> 1;
    var b4 := b3 >> 1;
    assert b1 < 0x80 && b2 < 0x40 && b3 < 0x20 && b4 < 0x10;
    assert Short(b4, 4) by { NibbleIsShort(b4); }
    assert Short(b3, 5) && Short(b2, 6) && Short(b1, 7);
  }

  lemma {:induction false} NibbleIsShort(b: bv16)
    requires b < 0x10
    ensures Short(b, 4)
  {
    var b1 := b >> 1;
    var b2 := b1 >> 1;
    var b3 := b2 >> 1;
    var b4 := b3 >> 1;
    assert b1 < 0x8 && b2 < 0x4 && b3 < 0x2 && b4 == 0;
    assert Short(b4, 0);
    assert Short(b3, 1) && Short(b2, 2) && Short(b1, 3);
  }

  /** A few bits are their own remainder. */
  lemma {:induction false} WordRemainder(b: bv16, n: nat)
    requires b < 0x100 && Short(b, n)
    ensures Remainder(0, LowBits(b, n)) == b
    decreases n
  {
    hide Shift, Plus, Low, Remainder;
    if n == 0 {
      NoBits();
    } else {
      Half(b);
      WordRemainder(b >> 1, n - 1);
      RemainderSnoc(0, LowBits(b >> 1, n - 1), b & 1 == 1);
      BitIn(b, b & 1 == 1);
    }
  }

  lemma {:induction false} NoBits()
    ensures Remainder(0, []) == 0
  {
  }

  /** The word with the n low bits of a number. */
  function Word(x: nat, n: nat): bv16
    decreases n
  {
    if n == 0 then 0 else Push(Word(x / 2, n - 1), x % 2 == 1)
  }

  /** One more bit at the low end. */
  function Push(r: bv16, b: bool): bv16
  {
    (r << 1) ^ Low(b)
  }

  lemma {:induction false} BitOff(r: bv16, b: bv16)
    requires r >> 15 == 0 && (b == 0 || b == 1)
    ensures ((r << 1) ^ b) >> 1 == r && ((r << 1) ^ b) & 1 == b
  {
  }

  lemma {:induction false} WordBelow(x: nat, n: nat)
    requires n <= 8
    ensures Below(Word(x, n), n)
    decreases n
  {
    hide Push;
    if n == 0 {
      NothingSet();
    } else {
      WordBelow(x / 2, n - 1);
      BelowStep(Word(x / 2, n - 1), n - 1, x % 2 == 1);
    }
  }

  lemma {:induction false} PushWords(r: bv16, m: bv16, b: bool)
    requires r & (m ^ 0xFFFF) == 0 && m >> 15 == 0
    ensures r >> 15 == 0 && Push(r, b) & (((m << 1) ^ 1) ^ 0xFFFF) == 0
  {
    hide Low;
    LowCases(b);
    CrcPoly.WordStep(r, m, Low(b));
  }

  lemma {:induction false} BelowStep(r: bv16, n: nat, b: bool)
    requires Below(r, n) && n < 16
    ensures r >> 15 == 0 && Below(Push(r, b), n + 1)
  {
    hide Push;
    OnesBound(n);
    PushWords(r, Ones(n), b);
  }

  lemma {:induction false} LowBitsPush(r: bv16, b: bool, n: nat)
    requires r >> 15 == 0
    ensures LowBits(Push(r, b), n + 1) == LowBits(r, n) + [b]
  {
    hide Low;
    LowCases(b);
    BitOff(r, Low(b));
  }

  lemma {:induction false} LowCases(b: bool)
    ensures (Low(b) == 0 || Low(b) == 1) && (Low(b) == 1 <==> b)
  {
  }

  lemma {:induction false} NoLowBits()
    ensures LowBits(0, 0) == []
  {
  }

  /** Its bits are those of the number. */
  lemma {:induction false} WordBits(x: nat, n: nat)
    requires n <= 8
    ensures LowBits(Word(x, n), n) == NumberBits(x, n)
    decreases n
  {
    hide Below, Push, LowBits;
    if n == 0 {
      NoLowBits();
    } else {
      var r, b := Word(x / 2, n - 1), x % 2 == 1;
      WordBits(x / 2, n - 1);
      WordBelow(x / 2, n - 1);
      BelowStep(r, n - 1, b);
      LowBitsPush(r, b, n - 1);
    }
  }

  lemma {:induction false} ByteFits(x: Octet)
    ensures Word(x, 8) < 0x100
  {
    hide Word;
    WordBelow(x, 8);
    assert Ones(4) == 0xF && Ones(8) == 0xFF;
    BelowMeansLess(Word(x, 8));
  }

  lemma {:induction false} BelowMeansLess(w: bv16)
    requires w & (0xFF ^ 0xFFFF) == 0
    ensures w < 0x100
  {
  }

  lemma {:induction false} ShiftLow(c: bv16)
    requires c < 0x8000
    ensures Shift(c) == c << 1
  {
    hide Shift;
    ShiftByGenerator(c);
    assert c >> 15 == 0;
  }

  lemma {:induction false} FourTimes(c: bv16)
    requires c < 0x1000
    ensures Times(c, 4) == c << 4
  {
    hide Shift;
    var c1 := c << 1;
    var c2 := c1 << 1;
    var c3 := c2 << 1;
    var c4 := c3 << 1;
    assert c1 < 0x2000 && c2 < 0x4000 && c3 < 0x8000 && c4 == c << 4;
    ShiftLow(c);
    ShiftLow(c1);
    ShiftLow(c2);
    ShiftLow(c3);
    assert Times(c4, 0) == c4;
    assert Times(c3, 1) == c4 && Times(c2, 2) == c4 && Times(c1, 3) == c4;
  }

  lemma {:induction false} EightTimes(c: bv16)
    requires c < 0x100
    ensures Times(c, 8) == c << 8
  {
    hide Times;
    var c4 := c << 4;
    assert c4 < 0x1000 && c4 << 4 == c << 8;
    FourTimes(c);
    FourTimes(c4);
    TimesAdd(c, 4, 4);
  }

  lemma {:induction false} Halves(r: bv16)
    ensures (r >> 8) < 0x100 && (r & 0xFF) < 0x100 && r == Plus(r & 0xFF, (r >> 8) << 8) && (r & 0xFF) << 8 == r << 8
  {
  }

  lemma {:induction false} RegisterTimes8(r: bv16)
    ensures (r >> 8) < 0x100 && Times(r, 8) == Plus(r << 8, Times(r >> 8, 16))
  {
    hide Times, Plus;
    Halves(r);
    var lo, hi := r & 0xFF, r >> 8;
    TimesLinear(lo, hi << 8, 8);
    EightTimes(lo);
    EightTimes(hi);
    TimesAdd(hi, 8, 8);
  }

  lemma {:induction false} FeedZeros(r: bv16, n: nat)
    ensures Feed(r, Zeros(n)) == Times(r, n)
    decreases n
  {
    hide Shift, Plus;
    if n == 0 {
    } else {
      assert Zeros(n)[1..] == Zeros(n - 1);
      PlusLaws(r, 0, 0);
      FeedZeros(Shift(r), n - 1);
    }
  }

  /** The register contributes independently of the bits. */
  lemma {:induction false} FeedSplit(r: bv16, u: seq<bool>)
    ensures Feed(r, u) == Plus(Times(r, |u|), Times(Remainder(0, u), 16))
  {
    hide Feed, Times, Plus, Remainder;
    FeedDiff(r, 0, Zeros(|u|), u);
    assert Diff(Zeros(|u|), u) == u;
    FeedZeros(r, |u|);
    PlusLaws(r, 0, 0);
    ZeroTimes(16);
    FeedIsRemainder(0, u);
  }

  /** The step of the program, on words. */
  function StepWord(r: bv16, b: bv16): bv16
    requires b < 0x100
  {
    IndexFits(b, r);
    Lookup(b ^ (r >> 8)) ^ (r << 8)
  }

  function Step(r: bv16, x: Octet): bv16
  {
    ByteFits(x);
    StepWord(r, Word(x, 8))
  }

  lemma {:induction false} IndexFits(b: bv16, r: bv16)
    requires b < 0x100
    ensures b ^ (r >> 8) < 0x100
  {
  }

  lemma {:induction false} WordStep8(b: bv16, r: bv16)
    requires b < 0x100
    ensures (b ^ (r >> 8)) < 0x100 && Feed(r, LowBits(b, 8)) == Plus(Lookup(Plus(b, r >> 8)), r << 8)
  {
    hide Feed, Times, Plus, Lookup, Remainder, LowBits;
    var hi := r >> 8;
    IndexFits(b, r);
    assert Plus(b, hi) == b ^ hi by { PlusIsXor(b, hi); }
    BytesAreShort(b);
    WordRemainder(b, 8);
    FeedSplit(r, LowBits(b, 8));
    RegisterTimes8(r);
    TableCorrect(Plus(b, hi));
    TimesLinear(b, hi, 16);
    var p, q, t := Times(b, 16), Times(hi, 16), r << 8;
    PlusLaws(t, q, p);
    PlusLaws(q, p, t);
    PlusLaws(t, Plus(p, q), 0);
  }

  lemma {:induction false} PlusIsXor(a: bv16, b: bv16)
    ensures Plus(a, b) == a ^ b
  {
  }

  lemma {:induction false} StepIsFeed(r: bv16, b: bv16)
    requires b < 0x100
    ensures Feed(r, LowBits(b, 8)) == StepWord(r, b)
  {
    hide Feed, LowBits, Lookup;
    WordStep8(b, r);
  }

  /** One table step is eight bits of division. */
  lemma {:induction false} ByteStep(r: bv16, x: Octet)
    ensures Feed(r, ByteBits(x)) == Step(r, x)
  {
    hide Feed, LowBits, StepWord, Word, NumberBits;
    ByteFits(x);
    WordBits(x, 8);
    StepIsFeed(r, Word(x, 8));
  }

  // ----- the program

  /** cktp_calculate_checksum. */
  method CalculateChecksum(data: seq<Octet>) returns (remainder: bv16)
    ensures remainder == Division(data)
  {
    hide Feed, Remainder, Step, ByteBits;
    remainder := 0;
    FeedNothing();
    var i := 0;
    while i < |data|
      invariant 0 <= i <= |data|
      invariant remainder == Feed(0, Bits(data[..i]))
    {
      ByteStep(remainder, data[i]);
      FeedAppend(0, Bits(data[..i]), ByteBits(data[i]));
      assert data[..i + 1][..i] == data[..i];
      remainder := Step(remainder, data[i]);
      i := i + 1;
    }
    assert data[..i] == data;
    FeedIsDivision(Bits(data));
  }

  lemma {:induction false} FeedNothing()
    ensures Feed(0, Bits([])) == 0
  {
  }

  lemma {:induction false} ByteBitsInjective(x: nat, y: nat, n: nat)
    requires x < Pow(2, n) && y < Pow(2, n) && NumberBits(x, n) == NumberBits(y, n)
    ensures x == y
    decreases n
  {
    if n == 0 {
    } else {
      var s, t := NumberBits(x, n), NumberBits(y, n);
      assert s[n - 1] == (x % 2 == 1) && t[n - 1] == (y % 2 == 1);
      assert s[..n - 1] == NumberBits(x / 2, n - 1) && t[..n - 1] == NumberBits(y / 2, n - 1);
      assert Pow(2, n) == 2 * Pow(2, n - 1);
      ByteBitsInjective(x / 2, y / 2, n - 1);
    }
  }

  lemma {:induction false} OctetBitsInjective(x: Octet, y: Octet)
    requires ByteBits(x) == ByteBits(y)
    ensures x == y
  {
    assert Pow(2, 8) == 256;
    ByteBitsInjective(x, y, 8);
  }

  lemma {:induction false} BitsInjective(x: seq<Octet>, y: seq<Octet>)
    requires |x| == |y| && Bits(x) == Bits(y)
    ensures x == y
    decreases |x|
  {
    hide ByteBits;
    if x == [] {
    } else {
      var n := |x| - 1;
      assert Bits(x)[..8 * n] == Bits(x[..n]) && Bits(y)[..8 * n] == Bits(y[..n]);
      assert Bits(x)[8 * n..] == ByteBits(x[n]) && Bits(y)[8 * n..] == ByteBits(y[n]);
      BitsInjective(x[..n], y[..n]);
      OctetBitsInjective(x[n], y[n]);
      assert x == x[..n] + [x[n]] && y == y[..n] + [y[n]];
    }
  }

  /** Two messages of equal length that differ, and only within sixteen consecutive bits, have different checksums. */
  lemma {:induction false} BurstErrorDetected(x: seq<Octet>, y: seq<Octet>, k: nat)
    requires |x| == |y| && x != y && k <= 8 * |x|
    requires forall i :: 0 <= i < 8 * |x| && !(k <= i < k + 16) ==> Bits(x)[i] == Bits(y)[i]
    ensures Division(x) != Division(y)
  {
    hide Feed, Remainder, ByteBits;
    var p, q := Bits(x), Bits(y);
    var e := if k + 16 < |p| then k + 16 else |p|;
    if p == q { BitsInjective(x, y); }
    var a, u, v, b := p[..k], p[k..e], q[k..e], p[e..];
    assert p == a + u + b;
    assert q == a + v + b by { assert q[..k] == a && q[e..] == b; }
    FeedIsDivision(p);
    FeedIsDivision(q);
    BurstDetected(0, a, u, v, b);
  }
}
