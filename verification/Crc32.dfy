/** CRC-32 as nginx computes it, with a table of 16 and with a table of 256 entries, against the bit by bit
    definition of section 3.4 of RFC 2083: least significant bit first, polynomial 0xEDB88320.
 */
module Crc32 {

  const POLY: bv32 := 0xedb88320
  const ONES: bv32 := 0xffffffff

  /** Exclusive or, by name: many proofs need its laws alone and not the bits. */
  function Xor(a: bv32, b: bv32): bv32 {
    a ^ b
  }

  /** One step of the shift register. */
  function Shift(x: bv32): bv32 {
    if x & 1 == 1 then (x >> 1) ^ POLY else x >> 1
  }

  function Shift4(x: bv32): bv32 {
    Shift(Shift(Shift(Shift(x))))
  }

  function Shift8(x: bv32): bv32 {
    Shift4(Shift4(x))
  }

  /** The register after the lowest `n` bits of `c`, one at a time. */
  function FeedBits(crc: bv32, c: bv32, n: nat): bv32
    decreases n
  {
    if n == 0 then crc else FeedBits(Shift(Xor(crc, c & 1)), c >> 1, n - 1)
  }

  /** The register after a byte string. */
  function Register(crc: bv32, data: seq<bv8>): bv32
    decreases |data|
  {
    if data == [] then crc else Register(FeedBits(crc, data[0] as bv32, 8), data[1..])
  }

  /** The bit by bit CRC-32. */
  function Reference(data: seq<bv8>): bv32 {
    Register(ONES, data) ^ ONES
  }

  // ---------- the shift register is linear and loses nothing ----------

  lemma XorZero(x: bv32)
    ensures Xor(x, 0) == x
  {
  }

  lemma ShiftInjective(a: bv32, b: bv32)
    requires Shift(a) == Shift(b)
    ensures a == b
  {
  }

  function ShiftN(x: bv32, n: nat): bv32
    decreases n
  {
    if n == 0 then x else ShiftN(Shift(x), n - 1)
  }

  /** `c` has no more than `n` bits. */
  predicate Fits(c: bv32, n: nat) {
    if n == 0 then c == 0 else Fits(c >> 1, n - 1)
  }

  // ---------- the tables ----------

  const TABLE16: seq<bv32> :=
    [0x00000000, 0x1db71064, 0x3b6e20c8, 0x26d930ac, 0x76dc4190, 0x6b6b51f4, 0x4db26158, 0x5005713c,
     0xedb88320, 0xf00f9344, 0xd6d6a3e8, 0xcb61b38c, 0x9b64c2b0, 0x86d3d2d4, 0xa00ae278, 0xbdbdf21c]

  const ROW0: seq<bv32> :=
    [0x00000000, 0x77073096, 0xee0e612c, 0x990951ba, 0x076dc419, 0x706af48f, 0xe963a535, 0x9e6495a3,
     0x0edb8832, 0x79dcb8a4, 0xe0d5e91e, 0x97d2d988, 0x09b64c2b, 0x7eb17cbd, 0xe7b82d07, 0x90bf1d91]

  const ROW1: seq<bv32> :=
    [0x1db71064, 0x6ab020f2, 0xf3b97148, 0x84be41de, 0x1adad47d, 0x6ddde4eb, 0xf4d4b551, 0x83d385c7,
     0x136c9856, 0x646ba8c0, 0xfd62f97a, 0x8a65c9ec, 0x14015c4f, 0x63066cd9, 0xfa0f3d63, 0x8d080df5]

  const ROW2: seq<bv32> :=
    [0x3b6e20c8, 0x4c69105e, 0xd56041e4, 0xa2677172, 0x3c03e4d1, 0x4b04d447, 0xd20d85fd, 0xa50ab56b,
     0x35b5a8fa, 0x42b2986c, 0xdbbbc9d6, 0xacbcf940, 0x32d86ce3, 0x45df5c75, 0xdcd60dcf, 0xabd13d59]

  const ROW3: seq<bv32> :=
    [0x26d930ac, 0x51de003a, 0xc8d75180, 0xbfd06116, 0x21b4f4b5, 0x56b3c423, 0xcfba9599, 0xb8bda50f,
     0x2802b89e, 0x5f058808, 0xc60cd9b2, 0xb10be924, 0x2f6f7c87, 0x58684c11, 0xc1611dab, 0xb6662d3d]

  const ROW4: seq<bv32> :=
    [0x76dc4190, 0x01db7106, 0x98d220bc, 0xefd5102a, 0x71b18589, 0x06b6b51f, 0x9fbfe4a5, 0xe8b8d433,
     0x7807c9a2, 0x0f00f934, 0x9609a88e, 0xe10e9818, 0x7f6a0dbb, 0x086d3d2d, 0x91646c97, 0xe6635c01]

  const ROW5: seq<bv32> :=
    [0x6b6b51f4, 0x1c6c6162, 0x856530d8, 0xf262004e, 0x6c0695ed, 0x1b01a57b, 0x8208f4c1, 0xf50fc457,
     0x65b0d9c6, 0x12b7e950, 0x8bbeb8ea, 0xfcb9887c, 0x62dd1ddf, 0x15da2d49, 0x8cd37cf3, 0xfbd44c65]

  const ROW6: seq<bv32> :=
    [0x4db26158, 0x3ab551ce, 0xa3bc0074, 0xd4bb30e2, 0x4adfa541, 0x3dd895d7, 0xa4d1c46d, 0xd3d6f4fb,
     0x4369e96a, 0x346ed9fc, 0xad678846, 0xda60b8d0, 0x44042d73, 0x33031de5, 0xaa0a4c5f, 0xdd0d7cc9]

  const ROW7: seq<bv32> :=
    [0x5005713c, 0x270241aa, 0xbe0b1010, 0xc90c2086, 0x5768b525, 0x206f85b3, 0xb966d409, 0xce61e49f,
     0x5edef90e, 0x29d9c998, 0xb0d09822, 0xc7d7a8b4, 0x59b33d17, 0x2eb40d81, 0xb7bd5c3b, 0xc0ba6cad]

  const ROW8: seq<bv32> :=
    [0xedb88320, 0x9abfb3b6, 0x03b6e20c, 0x74b1d29a, 0xead54739, 0x9dd277af, 0x04db2615, 0x73dc1683,
     0xe3630b12, 0x94643b84, 0x0d6d6a3e, 0x7a6a5aa8, 0xe40ecf0b, 0x9309ff9d, 0x0a00ae27, 0x7d079eb1]

  const ROW9: seq<bv32> :=
    [0xf00f9344, 0x8708a3d2, 0x1e01f268, 0x6906c2fe, 0xf762575d, 0x806567cb, 0x196c3671, 0x6e6b06e7,
     0xfed41b76, 0x89d32be0, 0x10da7a5a, 0x67dd4acc, 0xf9b9df6f, 0x8ebeeff9, 0x17b7be43, 0x60b08ed5]

  const ROW10: seq<bv32> :=
    [0xd6d6a3e8, 0xa1d1937e, 0x38d8c2c4, 0x4fdff252, 0xd1bb67f1, 0xa6bc5767, 0x3fb506dd, 0x48b2364b,
     0xd80d2bda, 0xaf0a1b4c, 0x36034af6, 0x41047a60, 0xdf60efc3, 0xa867df55, 0x316e8eef, 0x4669be79]

  const ROW11: seq<bv32> :=
    [0xcb61b38c, 0xbc66831a, 0x256fd2a0, 0x5268e236, 0xcc0c7795, 0xbb0b4703, 0x220216b9, 0x5505262f,
     0xc5ba3bbe, 0xb2bd0b28, 0x2bb45a92, 0x5cb36a04, 0xc2d7ffa7, 0xb5d0cf31, 0x2cd99e8b, 0x5bdeae1d]

  const ROW12: seq<bv32> :=
    [0x9b64c2b0, 0xec63f226, 0x756aa39c, 0x026d930a, 0x9c0906a9, 0xeb0e363f, 0x72076785, 0x05005713,
     0x95bf4a82, 0xe2b87a14, 0x7bb12bae, 0x0cb61b38, 0x92d28e9b, 0xe5d5be0d, 0x7cdcefb7, 0x0bdbdf21]

  const ROW13: seq<bv32> :=
    [0x86d3d2d4, 0xf1d4e242, 0x68ddb3f8, 0x1fda836e, 0x81be16cd, 0xf6b9265b, 0x6fb077e1, 0x18b74777,
     0x88085ae6, 0xff0f6a70, 0x66063bca, 0x11010b5c, 0x8f659eff, 0xf862ae69, 0x616bffd3, 0x166ccf45]

  const ROW14: seq<bv32> :=
    [0xa00ae278, 0xd70dd2ee, 0x4e048354, 0x3903b3c2, 0xa7672661, 0xd06016f7, 0x4969474d, 0x3e6e77db,
     0xaed16a4a, 0xd9d65adc, 0x40df0b66, 0x37d83bf0, 0xa9bcae53, 0xdebb9ec5, 0x47b2cf7f, 0x30b5ffe9]

  const ROW15: seq<bv32> :=
    [0xbdbdf21c, 0xcabac28a, 0x53b39330, 0x24b4a3a6, 0xbad03605, 0xcdd70693, 0x54de5729, 0x23d967bf,
     0xb3667a2e, 0xc4614ab8, 0x5d681b02, 0x2a6f2b94, 0xb40bbe37, 0xc30c8ea1, 0x5a05df1b, 0x2d02ef8d]

  /** The 256 entries, as sixteen rows of sixteen. */
  const TABLE256: seq<seq<bv32>> :=
    [ROW0, ROW1, ROW2, ROW3, ROW4, ROW5, ROW6, ROW7, ROW8, ROW9, ROW10, ROW11, ROW12, ROW13, ROW14, ROW15]

  /** The entries of `a` are those of `b`, up to a mask. */
  predicate Masked(a: seq<bv32>, b: seq<bv32>, mask: bv32) {
    && |a| == |b| == 16
    && a[0] == Xor(b[0], mask) && a[1] == Xor(b[1], mask) && a[2] == Xor(b[2], mask) && a[3] == Xor(b[3], mask)
    && a[4] == Xor(b[4], mask) && a[5] == Xor(b[5], mask) && a[6] == Xor(b[6], mask) && a[7] == Xor(b[7], mask)
    && a[8] == Xor(b[8], mask) && a[9] == Xor(b[9], mask) && a[10] == Xor(b[10], mask) && a[11] == Xor(b[11], mask)
    && a[12] == Xor(b[12], mask) && a[13] == Xor(b[13], mask) && a[14] == Xor(b[14], mask) && a[15] == Xor(b[15], mask)
  }

  lemma MaskedAt(a: seq<bv32>, b: seq<bv32>, mask: bv32, i: int)
    requires Masked(a, b, mask) && 0 <= i < 16
    ensures a[i] == Xor(b[i], mask)
  {
    hide Xor;
  }

  /** What shifting makes of the sixteen nibbles. */
  function Nibbles(shift: bv32 -> bv32): seq<bv32> {
    [shift(0), shift(1), shift(2), shift(3), shift(4), shift(5), shift(6), shift(7),
     shift(8), shift(9), shift(10), shift(11), shift(12), shift(13), shift(14), shift(15)]
  }

  lemma NibbleAt(shift: bv32 -> bv32, i: bv32)
    requires i < 16
    ensures Nibbles(shift)[i as int] == shift(i)
  {
    if i == 0 {
    } else if i == 1 {
    } else if i == 2 {
    } else if i == 3 {
    } else if i == 4 {
    } else if i == 5 {
    } else if i == 6 {
    } else if i == 7 {
    } else if i == 8 {
    } else if i == 9 {
    } else if i == 10 {
    } else if i == 11 {
    } else if i == 12 {
    } else if i == 13 {
    } else if i == 14 {
    } else {
      assert i == 15;
    }
  }

  lemma Table16IsShifts()
    ensures Masked(TABLE16, Nibbles(Shift4), 0)
  {
  }

  lemma Row0IsShifts()
    ensures Masked(ROW0, Nibbles(Shift8), 0)
  {
  }

  lemma Rows0To1()
    ensures Masked(ROW0, ROW0, TABLE16[0])
    ensures Masked(ROW1, ROW0, TABLE16[1])
  {
  }

  lemma Rows2To3()
    ensures Masked(ROW2, ROW0, TABLE16[2])
    ensures Masked(ROW3, ROW0, TABLE16[3])
  {
  }

  lemma Rows4To5()
    ensures Masked(ROW4, ROW0, TABLE16[4])
    ensures Masked(ROW5, ROW0, TABLE16[5])
  {
  }

  lemma Rows6To7()
    ensures Masked(ROW6, ROW0, TABLE16[6])
    ensures Masked(ROW7, ROW0, TABLE16[7])
  {
  }

  lemma Rows8To9()
    ensures Masked(ROW8, ROW0, TABLE16[8])
    ensures Masked(ROW9, ROW0, TABLE16[9])
  {
  }

  lemma Rows10To11()
    ensures Masked(ROW10, ROW0, TABLE16[10])
    ensures Masked(ROW11, ROW0, TABLE16[11])
  {
  }

  lemma Rows12To13()
    ensures Masked(ROW12, ROW0, TABLE16[12])
    ensures Masked(ROW13, ROW0, TABLE16[13])
  {
  }

  lemma Rows14To15()
    ensures Masked(ROW14, ROW0, TABLE16[14])
    ensures Masked(ROW15, ROW0, TABLE16[15])
  {
  }

  // ---------- table lookups are shifts ----------

  function Half(x: bv32): bv32 {
    x >> 1
  }

  function Tap(x: bv32): bv32 {
    if x & 1 == 1 then POLY else 0
  }

  lemma ShiftIs(x: bv32)
    ensures Shift(x) == Xor(Half(x), Tap(x))
  {
    if x & 1 == 1 {
      assert Tap(x) == POLY;
    } else {
      assert Tap(x) == 0;
      XorZero(Half(x));
    }
  }

  lemma HalfLinear(a: bv32, b: bv32)
    ensures Half(Xor(a, b)) == Xor(Half(a), Half(b))
  {
  }

  lemma TapLinear(a: bv32, b: bv32)
    ensures Tap(Xor(a, b)) == Xor(Tap(a), Tap(b))
  {
    assert a & 1 == 0 || a & 1 == 1;
    assert b & 1 == 0 || b & 1 == 1;
    assert (a ^ b) & 1 == (a & 1) ^ (b & 1);
  }

  lemma XorLaws(a: bv32, b: bv32, c: bv32)
    ensures Xor(Xor(a, b), c) == Xor(a, Xor(b, c)) && Xor(a, b) == Xor(b, a)
  {
    assert (a ^ b) ^ c == a ^ (b ^ c);
  }

  lemma XorSwap(a: bv32, b: bv32, c: bv32, d: bv32)
    ensures Xor(Xor(a, b), Xor(c, d)) == Xor(Xor(a, c), Xor(b, d))
  {
    hide Xor;
    XorLaws(Xor(a, b), c, d);
    XorLaws(a, b, c);
    XorLaws(b, c, c);
    XorLaws(a, c, b);
    XorLaws(Xor(a, c), b, d);
  }

  lemma ShiftLinear(a: bv32, b: bv32)
    ensures Shift(Xor(a, b)) == Xor(Shift(a), Shift(b))
  {
    hide *;
    ShiftIs(a);
    ShiftIs(b);
    ShiftIs(Xor(a, b));
    HalfLinear(a, b);
    TapLinear(a, b);
    XorSwap(Half(a), Half(b), Tap(a), Tap(b));
  }

  lemma Even(c: bv32)
    ensures c == Xor(c & 1, c & 0xfffffffe) && Shift(c & 0xfffffffe) == c >> 1
  {
  }

  /** A shift acts on the lowest bit alone; the rest just moves down. */
  lemma ShiftSplits(crc: bv32, c: bv32)
    ensures Shift(Xor(crc, c)) == Xor(Shift(Xor(crc, c & 1)), c >> 1)
  {
    hide Shift, Xor;
    Even(c);
    XorLaws(crc, c & 1, c & 0xfffffffe);
    ShiftLinear(Xor(crc, c & 1), c & 0xfffffffe);
  }

  /** Feeding bits one at a time is shifting the register with all of them added at once. */
  lemma {:induction false} FeedBitsAtOnce(crc: bv32, c: bv32, n: nat)
    requires n <= 32 && Fits(c, n)
    ensures FeedBits(crc, c, n) == ShiftN(Xor(crc, c), n)
    decreases n
  {
    hide Shift, Xor;
    if n == 0 {
      XorZero(crc);
    } else {
      ShiftSplits(crc, c);
      FeedBitsAtOnce(Shift(Xor(crc, c & 1)), c >> 1, n - 1);
    }
  }

  lemma Shift4Linear(a: bv32, b: bv32)
    ensures Shift4(Xor(a, b)) == Xor(Shift4(a), Shift4(b))
  {
    hide Shift, Xor;
    ShiftLinear(a, b);
    ShiftLinear(Shift(a), Shift(b));
    ShiftLinear(Shift(Shift(a)), Shift(Shift(b)));
    ShiftLinear(Shift(Shift(Shift(a))), Shift(Shift(Shift(b))));
  }

  function Low(x: bv32): bv32 {
    x & 15
  }

  function High(x: bv32): bv32 {
    x & 0xfffffff0
  }

  function Down4(x: bv32): bv32 {
    x >> 4
  }

  lemma Nibble(x: bv32)
    ensures x == Xor(Low(x), High(x)) && Down4(High(x)) == Down4(x) && High(x) & 15 == 0
  {
  }

  lemma Shift4OfHigh(x: bv32)
    requires x & 15 == 0
    ensures Shift4(x) == Down4(x)
  {
    assert Shift(x) == x >> 1;
    assert Shift(x >> 1) == x >> 2;
    assert Shift(x >> 2) == x >> 3;
  }

  /** Four shifts act on the low nibble alone; the rest just moves down. */
  lemma Shift4Splits(x: bv32)
    ensures Shift4(x) == Xor(Shift4(Low(x)), Down4(x))
  {
    hide *;
    Nibble(x);
    Shift4Linear(Low(x), High(x));
    Shift4OfHigh(High(x));
  }

  lemma Entry16IsShift(i: bv32)
    requires i < 16
    ensures TABLE16[i as int] == Shift4(i)
  {
    hide Shift4;
    Table16IsShifts();
    MaskedAt(TABLE16, Nibbles(Shift4), 0, i as int);
    NibbleAt(Shift4, i);
  }

  /** A lookup in the short table shifts by four. */
  lemma Lookup16(x: bv32)
    ensures Low(x) < 16 && Xor(TABLE16[Low(x) as int], Down4(x)) == Shift4(x)
  {
    hide Shift4, Xor, Down4;
    Entry16IsShift(Low(x));
    Shift4Splits(x);
  }

  /** The entry of the long table for a byte. */
  function Entry256(i: bv32): bv32
    requires i < 256
  {
    TABLE256[(i >> 4) as int][(i & 15) as int]
  }

  lemma RowOf(h: bv32)
    requires h < 16
    ensures Masked(TABLE256[h as int], ROW0, TABLE16[h as int])
  {
    hide Masked;
    Rows0To1();
    Rows2To3();
    Rows4To5();
    Rows6To7();
    Rows8To9();
    Rows10To11();
    Rows12To13();
    Rows14To15();
    if h == 0 {
    } else if h == 1 {
    } else if h == 2 {
    } else if h == 3 {
    } else if h == 4 {
    } else if h == 5 {
    } else if h == 6 {
    } else if h == 7 {
    } else if h == 8 {
    } else if h == 9 {
    } else if h == 10 {
    } else if h == 11 {
    } else if h == 12 {
    } else if h == 13 {
    } else if h == 14 {
    } else {
      assert h == 15;
    }
  }

  lemma Entry256IsShift(i: bv32)
    requires i < 256
    ensures Entry256(i) == Xor(Shift8(Low(i)), Shift4(Down4(i)))
  {
    hide Shift4, Shift8, Masked;
    var h, l := i >> 4, i & 15;
    RowOf(h);
    MaskedAt(TABLE256[h as int], ROW0, TABLE16[h as int], l as int);
    Row0IsShifts();
    MaskedAt(ROW0, Nibbles(Shift8), 0, l as int);
    NibbleAt(Shift8, l);
    Entry16IsShift(h);
  }

  function LowByte(x: bv32): (r: bv32)
    ensures r < 256
  {
    x & 255
  }

  function Down8(x: bv32): bv32 {
    x >> 8
  }

  /** A lookup in the long table shifts by eight. */
  lemma Lookup256(x: bv32)
    ensures Xor(Entry256(LowByte(x)), Down8(x)) == Shift8(x)
  {
    hide Shift4, Xor, Entry256, Low, Down4, LowByte, Down8;
    Entry256IsShift(LowByte(x));
    ByteParts(x);
    Shift4Splits(x);
    Shift4Linear(Shift4(Low(x)), Down4(x));
    Shift4Splits(Down4(x));
    XorLaws(Shift8(Low(x)), Shift4(Low(Down4(x))), Down8(x));
  }

  lemma ByteParts(x: bv32)
    ensures Low(LowByte(x)) == Low(x) && Down4(LowByte(x)) == Low(Down4(x)) && Down4(Down4(x)) == Down8(x)
  {
  }

  // ---------- bytes ----------

  /** The lowest eight bits in turn shift the register by eight. */
  lemma FeedByte(crc: bv32, c: bv8)
    ensures FeedBits(crc, c as bv32, 8) == Shift8(Xor(crc, c as bv32))
  {
    hide Shift;
    var x := c as bv32;
    assert Fits(x, 8) by {
      ByteFits(c);
    }
    FeedBitsAtOnce(crc, x, 8);
    var y := Xor(crc, x);
    ShiftNIs(y, 4);
    ShiftNIs(Shift4(y), 0);
  }

  lemma ShiftNIs(x: bv32, n: nat)
    ensures ShiftN(x, n + 4) == ShiftN(Shift4(x), n)
  {
    hide Shift;
    assert ShiftN(x, n + 4) == ShiftN(Shift(x), n + 3);
    assert ShiftN(Shift(x), n + 3) == ShiftN(Shift(Shift(x)), n + 2);
    assert ShiftN(Shift(Shift(x)), n + 2) == ShiftN(Shift(Shift(Shift(x))), n + 1);
  }

  lemma ByteFits(c: bv8)
    ensures Fits(c as bv32, 8)
  {
    var x := c as bv32;
    assert x >> 1 >> 1 >> 1 >> 1 >> 1 >> 1 >> 1 >> 1 == 0;
    assert Fits(x >> 1 >> 1 >> 1 >> 1 >> 1 >> 1, 2);
    assert Fits(x >> 1 >> 1 >> 1 >> 1, 4);
    assert Fits(x >> 1 >> 1, 6);
  }

  lemma {:induction false} RegisterConcat(crc: bv32, a: seq<bv8>, b: seq<bv8>)
    ensures Register(crc, a + b) == Register(Register(crc, a), b)
    decreases |a|
  {
    if a == [] {
      assert a + b == b;
    } else {
      assert (a + b)[1..] == a[1..] + b;
      RegisterConcat(FeedBits(crc, a[0] as bv32, 8), a[1..], b);
    }
  }

  lemma RegisterOne(crc: bv32, c: bv8)
    ensures Register(crc, [c]) == FeedBits(crc, c as bv32, 8)
  {
    hide FeedBits;
    assert [c][1..] == [];
  }

  lemma RegisterLast(crc: bv32, a: seq<bv8>, c: bv8)
    ensures Register(crc, a + [c]) == Shift8(Xor(Register(crc, a), c as bv32))
  {
    hide *;
    RegisterConcat(crc, a, [c]);
    RegisterOne(Register(crc, a), c);
    FeedByte(Register(crc, a), c);
  }

  // ---------- the two forms ----------

  /** What the short form does with a nibble. */
  function NibbleStep(crc: bv32, n: bv32): bv32 {
    Xor(TABLE16[(Xor(crc, n) & 15) as int], crc >> 4)
  }

  /** What the long form does with a byte. */
  function ByteStep(crc: bv32, c: bv32): bv32 {
    Xor(Entry256(LowByte(Xor(crc, c))), Down8(crc))
  }

  lemma UnderNibble(crc: bv32, n: bv32)
    requires n < 16
    ensures Down4(Xor(crc, n)) == crc >> 4 && Low(Xor(crc, n)) == Xor(crc, n) & 15
  {
  }

  lemma NibbleStepShifts(crc: bv32, n: bv32)
    requires n < 16
    ensures NibbleStep(crc, n) == Shift4(Xor(crc, n))
  {
    hide Shift4, Xor, Low, Down4;
    UnderNibble(crc, n);
    Lookup16(Xor(crc, n));
  }

  lemma UnderByte(crc: bv32, c: bv32)
    requires c < 256
    ensures Down8(Xor(crc, c)) == Down8(crc)
  {
  }

  lemma ByteStepShifts(crc: bv32, c: bv32)
    requires c < 256
    ensures ByteStep(crc, c) == Shift8(Xor(crc, c))
  {
    hide Shift8, Xor, Entry256, LowByte, Down8;
    UnderByte(crc, c);
    Lookup256(Xor(crc, c));
  }

  /** The two nibbles of a byte in turn. */
  lemma TwoNibbles(crc: bv32, c: bv32)
    ensures Shift4(Xor(Shift4(Xor(crc, Low(c))), Down4(c))) == Shift8(Xor(crc, c))
  {
    hide Shift4, Xor, Low, High, Down4;
    Nibble(c);
    XorLaws(crc, Low(c), High(c));
    Shift4Linear(Xor(crc, Low(c)), High(c));
    Shift4OfHigh(High(c));
  }

  lemma ShortStep(crc: bv32, c: bv32)
    requires c < 256
    ensures NibbleStep(NibbleStep(crc, c & 15), c >> 4) == Shift8(Xor(crc, c))
  {
    hide Shift4, Shift8, Xor, NibbleStep;
    NibbleStepShifts(crc, c & 15);
    NibbleStepShifts(NibbleStep(crc, c & 15), c >> 4);
    TwoNibbles(crc, c);
  }

  /** ngx_crc32_short: two lookups per byte. */
  method Short(p: seq<bv8>) returns (r: bv32)
    ensures r == Reference(p)
  {
    hide NibbleStep, Xor, Shift8;
    var crc := ONES;
    for i := 0 to |p|
      invariant crc == Register(ONES, p[..i])
    {
      var c := p[i] as bv32;
      ShortStep(crc, c);
      RegisterLast(ONES, p[..i], p[i]);
      assert p[..i + 1] == p[..i] + [p[i]];
      crc := NibbleStep(crc, c & 15);
      crc := NibbleStep(crc, c >> 4);
    }
    assert p[..|p|] == p;
    return crc ^ ONES;
  }

  /** ngx_crc32_update: one lookup per byte, from where the register stands. */
  method Update(crc: bv32, p: seq<bv8>) returns (c: bv32)
    ensures c == Register(crc, p)
  {
    hide ByteStep, Xor, Shift8;
    c := crc;
    for i := 0 to |p|
      invariant c == Register(crc, p[..i])
    {
      ByteStepShifts(c, p[i] as bv32);
      RegisterLast(crc, p[..i], p[i]);
      assert p[..i + 1] == p[..i] + [p[i]];
      c := ByteStep(c, p[i] as bv32);
    }
    assert p[..|p|] == p;
  }

  /** ngx_crc32_long. */
  method Long(p: seq<bv8>) returns (r: bv32)
    ensures r == Reference(p)
  {
    var crc := Update(ONES, p);
    return crc ^ ONES;
  }

  // ---------- what a CRC is for: short bursts of errors do not go unnoticed ----------

  lemma Shift8Injective(a: bv32, b: bv32)
    requires Shift8(a) == Shift8(b)
    ensures a == b
  {
    Shift4Injective(Shift4(a), Shift4(b));
    Shift4Injective(a, b);
  }

  lemma Shift4Injective(a: bv32, b: bv32)
    requires Shift4(a) == Shift4(b)
    ensures a == b
  {
    hide Shift;
    ShiftInjective(Shift(Shift(Shift(a))), Shift(Shift(Shift(b))));
    ShiftInjective(Shift(Shift(a)), Shift(Shift(b)));
    ShiftInjective(Shift(a), Shift(b));
    ShiftInjective(a, b);
  }

  lemma RegisterFirst(crc: bv32, c: bv8, data: seq<bv8>)
    ensures Register(crc, [c] + data) == Register(Shift8(Xor(crc, c as bv32)), data)
  {
    hide *;
    RegisterConcat(crc, [c], data);
    RegisterOne(crc, c);
    FeedByte(crc, c);
  }

  /** Registers that differ still differ after the same bytes. */
  lemma {:induction false} RegisterInjective(a: bv32, b: bv32, data: seq<bv8>)
    requires Register(a, data) == Register(b, data)
    ensures a == b
    decreases |data|
  {
    hide FeedBits, Shift8, Xor;
    if data != [] {
      var c := data[0] as bv32;
      assert data == [data[0]] + data[1..];
      RegisterFirst(a, data[0], data[1..]);
      RegisterFirst(b, data[0], data[1..]);
      RegisterInjective(Shift8(Xor(a, c)), Shift8(Xor(b, c)), data[1..]);
      Shift8Injective(Xor(a, c), Xor(b, c));
      XorInjective(a, b, c);
    }
  }

  lemma XorInjective(a: bv32, b: bv32, c: bv32)
    requires Xor(a, c) == Xor(b, c)
    ensures a == b
  {
    assert (a ^ c) ^ c == a && (b ^ c) ^ c == b;
  }

  function Up8(x: bv32): bv32 {
    x << 8
  }

  /** Up to four bytes as one little-endian word. */
  function Word(data: seq<bv8>): bv32 {
    if data == [] then 0 else Xor(data[0] as bv32, Up8(Word(data[1..])))
  }

  /** `w` has at most `n` bytes. */
  predicate Bytes(w: bv32, n: nat) {
    w <= if n == 0 then 0 else if n == 1 then 0xff else if n == 2 then 0xffff else 0xffffff
  }

  lemma {:induction false} WordFits(data: seq<bv8>)
    requires |data| <= 3
    ensures Bytes(Word(data), |data|)
    decreases |data|
  {
    hide Xor, Up8, Bytes;
    if data == [] {
      BytesOfNone();
    } else {
      WordFits(data[1..]);
      UpFits(data[0], Word(data[1..]), |data|);
    }
  }

  lemma UpFits(c: bv8, w: bv32, n: nat)
    requires 1 <= n <= 3 && Bytes(w, n - 1)
    ensures Bytes(Xor(c as bv32, Up8(w)), n)
  {
  }

  lemma Shift8OfUp(w: bv32)
    requires w <= 0xffffff
    ensures Shift8(Up8(w)) == w
  {
    hide Shift4;
    Shift4OfHigh(w << 8);
    Shift4OfHigh(w << 8 >> 4);
  }

  function ShiftBytes(x: bv32, n: nat): bv32
    decreases n
  {
    if n == 0 then x else ShiftBytes(Shift8(x), n - 1)
  }

  lemma Shift8Linear(a: bv32, b: bv32)
    ensures Shift8(Xor(a, b)) == Xor(Shift8(a), Shift8(b))
  {
    hide Shift4, Xor;
    Shift4Linear(a, b);
    Shift4Linear(Shift4(a), Shift4(b));
  }

  /** Up to four bytes in turn act as the register with their word added, shifted. */
  lemma {:induction false} RegisterOfWord(crc: bv32, data: seq<bv8>)
    requires |data| <= 4
    ensures Register(crc, data) == ShiftBytes(Xor(crc, Word(data)), |data|)
    decreases |data|
  {
    hide FeedBits, Shift8, Xor, Up8, Bytes;
    if data == [] {
      XorZero(crc);
    } else {
      var c, w := data[0] as bv32, Word(data[1..]);
      assert data == [data[0]] + data[1..];
      RegisterFirst(crc, data[0], data[1..]);
      RegisterOfWord(Shift8(Xor(crc, c)), data[1..]);
      WordFits(data[1..]);
      ThreeBytes(w, |data| - 1);
      Shift8OfUp(w);
      XorLaws(crc, c, Up8(w));
      Shift8Linear(Xor(crc, c), Up8(w));
    }
  }

  lemma BytesOfNone()
    ensures Bytes(0, 0)
  {
  }

  lemma ThreeBytes(w: bv32, n: nat)
    requires Bytes(w, n)
    ensures w <= 0xffffff
  {
  }

  lemma {:induction false} ShiftBytesInjective(a: bv32, b: bv32, n: nat)
    requires ShiftBytes(a, n) == ShiftBytes(b, n)
    ensures a == b
    decreases n
  {
    hide Shift8;
    if n > 0 {
      ShiftBytesInjective(Shift8(a), Shift8(b), n - 1);
      Shift8Injective(a, b);
    }
  }

  lemma {:induction false} WordInjective(a: seq<bv8>, b: seq<bv8>)
    requires |a| == |b| <= 4 && Word(a) == Word(b)
    ensures a == b
    decreases |a|
  {
    hide Xor, Up8, Bytes;
    if a != [] {
      WordFits(a[1..]);
      WordFits(b[1..]);
      ThreeBytes(Word(a[1..]), |a| - 1);
      ThreeBytes(Word(b[1..]), |a| - 1);
      FirstByte(a[0], Word(a[1..]), b[0], Word(b[1..]));
      WordInjective(a[1..], b[1..]);
      assert a == [a[0]] + a[1..] && b == [b[0]] + b[1..];
    }
  }

  lemma FirstByte(c: bv8, v: bv32, d: bv8, w: bv32)
    requires v <= 0xffffff && w <= 0xffffff && Xor(c as bv32, Up8(v)) == Xor(d as bv32, Up8(w))
    ensures c == d && v == w
  {
  }

  /** Two messages that differ only within four consecutive bytes have different CRCs. */
  lemma BurstsAreDetected(before: seq<bv8>, a: seq<bv8>, b: seq<bv8>, after: seq<bv8>)
    requires |a| == |b| <= 4 && a != b
    ensures Reference(before + a + after) != Reference(before + b + after)
  {
    hide Register, ShiftBytes, Word;
    var crc := Register(ONES, before);
    RegisterConcat(ONES, before + a, after);
    RegisterConcat(ONES, before, a);
    RegisterConcat(ONES, before + b, after);
    RegisterConcat(ONES, before, b);
    if Register(ONES, before + a + after) == Register(ONES, before + b + after) {
      RegisterInjective(Register(crc, a), Register(crc, b), after);
      SameRegisterSameBytes(crc, a, b);
    }
  }

  lemma SameRegisterSameBytes(crc: bv32, a: seq<bv8>, b: seq<bv8>)
    requires |a| == |b| <= 4 && Register(crc, a) == Register(crc, b)
    ensures a == b
  {
    hide Register, ShiftBytes, Word, Xor;
    RegisterOfWord(crc, a);
    RegisterOfWord(crc, b);
    ShiftBytesInjective(Xor(crc, Word(a)), Xor(crc, Word(b)), |a|);
    XorLaws(crc, Word(a), 0);
    XorLaws(crc, Word(b), 0);
    XorInjective(Word(a), Word(b), crc);
    WordInjective(a, b);
  }

  /** The register after the first byte of a string. */
  lemma Feeds(crc: bv32, data: seq<bv8>, at: nat, next: bv32)
    requires at < |data| && Shift8(Xor(crc, data[at] as bv32)) == next
    ensures Register(crc, data[at..]) == Register(next, data[at + 1..])
  {
    hide Shift8, FeedBits, Xor;
    FeedByte(crc, data[at]);
    assert data[at..][1..] == data[at + 1..];
  }

  const DIGITS: seq<bv8> := [0x31, 0x32, 0x33, 0x34, 0x35, 0x36, 0x37, 0x38, 0x39]

  lemma FirstDigits()
    ensures Register(0xffffffff, DIGITS[0..]) == Register(0x77b79c2d, DIGITS[3..])
  {
    hide Register;
    Feeds(0xffffffff, DIGITS, 0, 0x7c231048);
    Feeds(0x7c231048, DIGITS, 1, 0xb0acbb32);
    Feeds(0xb0acbb32, DIGITS, 2, 0x77b79c2d);
  }

  lemma MiddleDigits()
    ensures Register(0x77b79c2d, DIGITS[3..]) == Register(0xf68d2c9e, DIGITS[6..])
  {
    hide Register;
    Feeds(0x77b79c2d, DIGITS, 3, 0x641c1f5c);
    Feeds(0x641c1f5c, DIGITS, 4, 0x340ac5e3);
    Feeds(0x340ac5e3, DIGITS, 5, 0xf68d2c9e);
  }

  lemma LastDigits()
    ensures Register(0xf68d2c9e, DIGITS[6..]) == Register(0x340bc6d9, DIGITS[9..])
  {
    hide Register;
    Feeds(0xf68d2c9e, DIGITS, 6, 0xaffc9660);
    Feeds(0xaffc9660, DIGITS, 7, 0x651f2550);
    Feeds(0x651f2550, DIGITS, 8, 0x340bc6d9);
  }

  /** The check value of CRC-32: the nine digits from 1 to 9 give 0xCBF43926. */
  lemma CheckValue()
    ensures Reference(DIGITS) == 0xcbf43926
  {
    FirstDigits();
    MiddleDigits();
    LastDigits();
    assert DIGITS[0..] == DIGITS && DIGITS[9..] == [];
  }
}
