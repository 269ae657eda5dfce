/** The checksum of metadata commits.

    The implementation folds a buffer four bits at a time with a table of sixteen words. The module
    proves that this is the reflected CRC with polynomial 0x04c11db7, bit by bit, that it does not
    matter how a buffer is cut into chunks, that a checksum continued over its own bytes gives zero,
    and that any two buffers that differ in one byte only have different checksums. */
module Crc {
  /** The polynomial 0x04c11db7, lowest power first. */
  const POLY: bv32 := 0xedb8_8320

  function Xor(x: bv32, y: bv32): bv32 {
    x ^ y
  }

  predicate Odd(x: bv32) {
    x & 1 == 1
  }

  function Half(x: bv32): bv32 {
    x >> 1
  }

  /** One bit of the division. */
  function Step(x: bv32): bv32 {
    if Odd(x) then Xor(Half(x), POLY) else Half(x)
  }

  function Steps(x: bv32, n: nat): bv32
    decreases n
  {
    if n == 0 then x else Steps(Step(x), n - 1)
  }

  function Wide(b: bv8): bv32 {
    b as bv32
  }

  function CrcByte(crc: bv32, b: bv8): bv32 {
    Steps(Xor(crc, Wide(b)), 8)
  }

  /** The checksum, bit by bit. */
  function Crc(crc: bv32, data: seq<bv8>): bv32
    decreases |data|
  {
    if data == [] then crc else Crc(CrcByte(crc, data[0]), data[1..])
  }

  // ---------------------------------------------------------------- the polynomial

  /** A word with its bits in reverse order: halves, bytes, nibbles, pairs and bits change places. */
  function Rev32(x: bv32): bv32 {
    var a := (x >> 16) | (x << 16);
    var b := ((a >> 8) & 0x00ff_00ff) | ((a & 0x00ff_00ff) << 8);
    var c := ((b >> 4) & 0x0f0f_0f0f) | ((b & 0x0f0f_0f0f) << 4);
    var d := ((c >> 2) & 0x3333_3333) | ((c & 0x3333_3333) << 2);
    ((d >> 1) & 0x5555_5555) | ((d & 0x5555_5555) << 1)
  }

  function Rev8(x: bv8): bv8 {
    var c := (x >> 4) | (x << 4);
    var d := ((c >> 2) & 0x33) | ((c & 0x33) << 2);
    ((d >> 1) & 0x55) | ((d & 0x55) << 1)
  }

  function Bit32(x: bv32, i: bv6): bv32
    requires i < 32
  {
    (x >> i) & 1
  }

  function Bit8(x: bv8, i: bv4): bv8
    requires i < 8
  {
    (x >> i) & 1
  }

  /** Bit i changes places with the one as far from the other end. */
  lemma RevBits(x: bv32, y: bv8, i: bv6, j: bv4)
    requires i < 32 && j < 8
    ensures Bit32(Rev32(x), i) == Bit32(x, 31 - i) && Bit8(Rev8(y), j) == Bit8(y, 7 - j)
  {
  }

  /** One bit of the division by x^32 + 0x04c11db7, highest power first: the remainder moves up, and
      the polynomial is taken off if a bit was carried out. */
  function Divide(x: bv32): bv32 {
    if x & 0x8000_0000 != 0 then (x << 1) ^ 0x04c1_1db7 else x << 1
  }

  function DivideBits(x: bv32, n: nat): bv32
    decreases n
  {
    if n == 0 then x else DivideBits(Divide(x), n - 1)
  }

  /** The remainder of the message so far, continued by more bytes. */
  function Remainder(rem: bv32, data: seq<bv8>): bv32
    decreases |data|
  {
    if data == [] then rem else Remainder(DivideBits(rem ^ ((data[0] as bv32) << 24), 8), data[1..])
  }

  function RevAll(data: seq<bv8>): (r: seq<bv8>)
    ensures |r| == |data|
  {
    seq(|data|, i requires 0 <= i < |data| => Rev8(data[i]))
  }

  lemma RevTwice(x: bv32)
    ensures Rev32(Rev32(x)) == x
  {
  }

  lemma RevHalf(x: bv32)
    ensures Rev32(Half(x)) == Rev32(x) << 1 && (Odd(x) <==> Rev32(x) & 0x8000_0000 != 0)
  {
  }

  lemma RevXor(x: bv32, y: bv32)
    ensures Rev32(Xor(x, y)) == Rev32(x) ^ Rev32(y)
  {
  }

  lemma RevPoly()
    ensures Rev32(POLY) == 0x04c1_1db7
  {
  }

  lemma RevWide(b: bv8)
    ensures Rev32(Wide(b)) == (Rev8(b) as bv32) << 24
  {
  }

  lemma RevStep(x: bv32)
    ensures Rev32(Step(x)) == Divide(Rev32(x))
  {
    hide Rev32, Half, Xor, Odd;
    RevHalf(x);
    RevXor(Half(x), POLY);
    RevPoly();
  }

  lemma {:induction false} RevSteps(x: bv32, n: nat)
    ensures Rev32(Steps(x, n)) == DivideBits(Rev32(x), n)
    decreases n
  {
    hide Rev32, Step, Divide;
    if n > 0 {
      RevStep(x);
      RevSteps(Step(x), n - 1);
    }
  }

  /** The checksum is the remainder of the division by the polynomial 0x04c11db7, with the bits of
      all bytes and of the checksum itself in reverse order. */
  lemma {:induction false} CrcIsRemainder(crc: bv32, data: seq<bv8>)
    ensures Rev32(Crc(crc, data)) == Remainder(Rev32(crc), RevAll(data))
    ensures Crc(crc, data) == Rev32(Remainder(Rev32(crc), RevAll(data)))
    decreases |data|
  {
    hide Rev32, Rev8, Steps, DivideBits, Xor, Wide;
    RevTwice(Crc(crc, data));
    if data != [] {
      var x := Xor(crc, Wide(data[0]));
      RevXor(crc, Wide(data[0]));
      RevWide(data[0]);
      RevSteps(x, 8);
      assert RevAll(data)[1..] == RevAll(data[1..]);
      CrcIsRemainder(CrcByte(crc, data[0]), data[1..]);
    }
  }

  // ---------------------------------------------------------------- four bits at a time

  function RTable(n: bv32): bv32 {
    match n
    case 0 => 0x0000_0000
    case 1 => 0x1db7_1064
    case 2 => 0x3b6e_20c8
    case 3 => 0x26d9_30ac
    case 4 => 0x76dc_4190
    case 5 => 0x6b6b_51f4
    case 6 => 0x4db2_6158
    case 7 => 0x5005_713c
    case 8 => 0xedb8_8320
    case 9 => 0xf00f_9344
    case 10 => 0xd6d6_a3e8
    case 11 => 0xcb61_b38c
    case 12 => 0x9b64_c2b0
    case 13 => 0x86d3_d2d4
    case 14 => 0xa00a_e278
    case _ => 0xbdbd_f21c
  }

  function Step4(x: bv32): bv32 {
    Step(Step(Step(Step(x))))
  }

  function Shift4(x: bv32): bv32 {
    x >> 4
  }

  function Low4(x: bv32): bv32 {
    x & 0xf
  }

  lemma HalfXor(x: bv32, y: bv32)
    ensures Half(Xor(x, y)) == Xor(Half(x), Half(y)) && (Odd(Xor(x, y)) <==> Odd(x) != Odd(y))
  {
  }

  lemma XorSwap(x: bv32, y: bv32)
    ensures Xor(x, y) == Xor(y, x)
  {
  }

  lemma XorLeft(x: bv32, y: bv32, p: bv32)
    ensures Xor(Xor(x, p), y) == Xor(Xor(x, y), p)
  {
    hide Xor;
    XorRight(x, p, y);
    XorSwap(p, y);
    XorRight(x, y, p);
  }

  lemma XorRight(x: bv32, y: bv32, p: bv32)
    ensures Xor(x, Xor(y, p)) == Xor(Xor(x, y), p)
  {
  }

  lemma XorBoth(x: bv32, y: bv32, p: bv32)
    ensures Xor(Xor(x, p), Xor(y, p)) == Xor(x, y)
  {
    hide Xor;
    XorRight(Xor(x, p), y, p);
    XorLeft(x, y, p);
    XorTwice(Xor(x, y), p);
  }

  lemma XorTwice(x: bv32, p: bv32)
    ensures Xor(Xor(x, p), p) == x
  {
  }

  lemma StepXor(x: bv32, y: bv32)
    ensures Step(Xor(x, y)) == Xor(Step(x), Step(y))
  {
    hide Xor, Half, Odd;
    HalfXor(x, y);
    XorBoth(Half(x), Half(y), POLY);
    XorLeft(Half(x), Half(y), POLY);
    XorRight(Half(x), Half(y), POLY);
  }

  lemma Step4Xor(x: bv32, y: bv32)
    ensures Step4(Xor(x, y)) == Xor(Step4(x), Step4(y))
  {
    hide Step, Xor;
    StepXor(x, y);
    StepXor(Step(x), Step(y));
    StepXor(Step(Step(x)), Step(Step(y)));
    StepXor(Step(Step(Step(x))), Step(Step(Step(y))));
  }

  /** The lowest bits of a word. */
  function Low(x: bv32, mask: bv32): bv32 {
    x & mask
  }

  lemma LowBits(x: bv32)
    ensures Low(x, 0xf) == 0 ==> !Odd(x) && Low(Half(x), 0x7) == 0
    ensures Low(x, 0x7) == 0 ==> !Odd(x) && Low(Half(x), 0x3) == 0
    ensures Low(x, 0x3) == 0 ==> !Odd(x) && !Odd(Half(x))
  {
  }

  lemma HalfTwice(x: bv32)
    ensures Half(Half(x)) == x >> 2 && (x >> 2) >> 2 == Shift4(x)
  {
  }

  lemma EvenFour(x: bv32)
    requires Low4(x) == 0
    ensures !Odd(x) && !Odd(Half(x)) && !Odd(Half(Half(x))) && !Odd(Half(Half(Half(x))))
    ensures Half(Half(Half(Half(x)))) == Shift4(x)
  {
    hide Odd, Half, Shift4, Low;
    Low4IsLow(x);
    LowBits(x);
    LowBits(Half(x));
    LowBits(Half(Half(x)));
    HalfTwice(x);
    HalfTwice(Half(Half(x)));
  }

  lemma Low4IsLow(x: bv32)
    ensures Low4(x) == Low(x, 0xf)
  {
  }

  /** Four steps of a word with four low zeros only shift. */
  lemma ShiftFour(x: bv32)
    requires Low4(x) == 0
    ensures Step4(x) == Shift4(x)
  {
    hide Odd, Half, Low4, Shift4, Xor;
    EvenFour(x);
  }

  /** The table holds what four steps make of four bits. */
  lemma TableIs(n: bv32)
    requires n < 16
    ensures Step4(n) == RTable(n)
  {
  }

  lemma SplitLow(x: bv32)
    ensures x == Xor(x & 0xffff_fff0, Low4(x))
    ensures Low4(x & 0xffff_fff0) == 0 && Shift4(x & 0xffff_fff0) == Shift4(x) && Low4(x) < 16
  {
  }

  /** Four steps at once. */
  lemma FourAtOnce(x: bv32)
    ensures Step4(x) == Xor(Shift4(x), RTable(Low4(x)))
  {
    hide Step4, Low4, Shift4, Xor, RTable;
    SplitLow(x);
    Step4Xor(x & 0xffff_fff0, Low4(x));
    ShiftFour(x & 0xffff_fff0);
    TableIs(Low4(x));
  }

  lemma {:induction false} StepsSplit(x: bv32, n: nat, m: nat)
    ensures Steps(x, n + m) == Steps(Steps(x, n), m)
    decreases n
  {
    hide Step;
    if n > 0 {
      StepsSplit(Step(x), n - 1, m);
    }
  }

  lemma StepsFour(x: bv32)
    ensures Steps(x, 4) == Step4(x)
  {
    hide Step;
    StepsSplit(x, 2, 2);
    assert Steps(x, 2) == Step(Step(x));
    assert Steps(Step(Step(x)), 2) == Step(Step(Step(Step(x))));
  }

  lemma StepsEight(x: bv32)
    ensures Steps(x, 8) == Step4(Step4(x))
  {
    hide Step4, Steps;
    StepsSplit(x, 4, 4);
    StepsFour(x);
    StepsFour(Step4(x));
  }

  function Nibble(crc: bv32, n: bv32): bv32 {
    Xor(Shift4(crc), RTable(Low4(Xor(crc, n))))
  }

  lemma ShiftXor(x: bv32, y: bv32, z: bv32)
    ensures Xor(Shift4(Xor(x, y)), z) == Xor(Xor(Shift4(x), z), Shift4(y))
  {
    hide Xor, Shift4;
    ShiftEach(x, y);
    XorLeft(Shift4(x), Shift4(y), z);
  }

  lemma ShiftEach(x: bv32, y: bv32)
    ensures Shift4(Xor(x, y)) == Xor(Shift4(x), Shift4(y))
  {
  }

  lemma ByteFits(crc: bv32, b: bv8)
    ensures Shift4(Xor(crc, Shift4(Wide(b)))) == Shift4(crc)
  {
  }

  /** Two table lookups make eight steps. */
  lemma ByteByNibbles(crc: bv32, b: bv8)
    ensures CrcByte(crc, b) == Nibble(Nibble(crc, Wide(b)), Shift4(Wide(b)))
  {
    hide Step4, Steps, Shift4, Low4, Xor, RTable, Wide;
    var x, y := Wide(b), Shift4(Wide(b));
    StepsEight(Xor(crc, x));
    FourAtOnce(Xor(crc, x));
    ShiftXor(crc, x, RTable(Low4(Xor(crc, x))));
    FourAtOnce(Xor(Nibble(crc, x), y));
    ByteFits(Nibble(crc, x), b);
  }

  /** lfs_crc */
  method LfsCrc(crc0: bv32, data: seq<bv8>) returns (crc: bv32)
    ensures crc == Crc(crc0, data)
    ensures crc == Rev32(Remainder(Rev32(crc0), RevAll(data)))
  {
    CrcIsRemainder(crc0, data);
    hide CrcByte, RTable, Wide, Xor, Shift4, Low4;
    crc := crc0;
    assert data[0..] == data;
    for i := 0 to |data|
      invariant Crc(crc, data[i..]) == Crc(crc0, data)
    {
      ByteByNibbles(crc, data[i]);
      assert data[i..][1..] == data[i + 1..];
      crc := Xor(Shift4(crc), RTable(Low4(Xor(crc, Wide(data[i])))));
      crc := Xor(Shift4(crc), RTable(Low4(Xor(crc, Shift4(Wide(data[i]))))));
    }
  }

  // ---------------------------------------------------------------- chunks

  /** A checksum can be continued. */
  lemma {:induction false} Continued(crc: bv32, a: seq<bv8>, b: seq<bv8>)
    ensures Crc(crc, a + b) == Crc(Crc(crc, a), b)
    decreases |a|
  {
    hide CrcByte;
    if a == [] {
      assert a + b == b;
    } else {
      assert (a + b)[1..] == a[1..] + b;
      Continued(CrcByte(crc, a[0]), a[1..], b);
    }
  }

  function Joined(chunks: seq<seq<bv8>>): seq<bv8> {
    if chunks == [] then [] else chunks[0] + Joined(chunks[1..])
  }

  function CrcChunks(crc: bv32, chunks: seq<seq<bv8>>): bv32
    decreases |chunks|
  {
    if chunks == [] then crc else CrcChunks(Crc(crc, chunks[0]), chunks[1..])
  }

  /** However a buffer is cut, chunk by chunk gives the checksum of the whole. */
  lemma {:induction false} ChunksDoNotMatter(crc: bv32, chunks: seq<seq<bv8>>)
    ensures CrcChunks(crc, chunks) == Crc(crc, Joined(chunks))
    decreases |chunks|
  {
    if chunks != [] {
      ChunksDoNotMatter(Crc(crc, chunks[0]), chunks[1..]);
      Continued(crc, chunks[0], Joined(chunks[1..]));
    }
  }

  // ---------------------------------------------------------------- checking

  /** The checksum as it is stored. */
  function Bytes(crc: bv32): seq<bv8> {
    [(crc & 0xff) as bv8, ((crc >> 8) & 0xff) as bv8, ((crc >> 16) & 0xff) as bv8, (crc >> 24) as bv8]
  }

  function Shift8(x: bv32): bv32 {
    x >> 8
  }

  lemma LowByteGone(x: bv32, y: bv32)
    requires x & 0xff == y
    ensures Low4(Xor(x, y)) == 0 && Low4(Shift4(Xor(x, y))) == 0 && Shift4(Shift4(Xor(x, y))) == Shift8(x)
  {
  }

  /** Taking in the low byte of the checksum only shifts it. */
  lemma ShiftsOut(crc: bv32, b: bv8)
    requires crc & 0xff == Wide(b)
    ensures CrcByte(crc, b) == Shift8(crc)
  {
    hide Step4, Steps, Shift4, Low4, Xor, Wide, Shift8;
    StepsEight(Xor(crc, Wide(b)));
    LowByteGone(crc, Wide(b));
    ShiftFour(Xor(crc, Wide(b)));
    ShiftFour(Shift4(Xor(crc, Wide(b))));
  }

  lemma BytesAre(crc: bv32)
    ensures crc & 0xff == Wide(Bytes(crc)[0]) && Shift8(crc) & 0xff == Wide(Bytes(crc)[1])
    ensures Shift8(Shift8(crc)) & 0xff == Wide(Bytes(crc)[2])
            && Shift8(Shift8(Shift8(crc))) & 0xff == Wide(Bytes(crc)[3])
    ensures Shift8(Shift8(Shift8(Shift8(crc)))) == 0 && |Bytes(crc)| == 4
  {
  }

  lemma CrcOfTwo(crc: bv32, a: bv8, b: bv8)
    ensures Crc(crc, [a, b]) == CrcByte(CrcByte(crc, a), b)
  {
    hide CrcByte;
    var c := CrcByte(crc, a);
    assert [a, b][1..] == [b];
    assert Crc(crc, [a, b]) == Crc(c, [b]);
    assert Crc(c, [b]) == Crc(CrcByte(c, b), []);
  }

  lemma CrcOfFour(crc: bv32, s: seq<bv8>)
    requires |s| == 4
    ensures Crc(crc, s) == CrcByte(CrcByte(CrcByte(CrcByte(crc, s[0]), s[1]), s[2]), s[3])
  {
    hide CrcByte;
    assert s == [s[0], s[1]] + [s[2], s[3]];
    Continued(crc, [s[0], s[1]], [s[2], s[3]]);
    CrcOfTwo(crc, s[0], s[1]);
    CrcOfTwo(CrcByte(CrcByte(crc, s[0]), s[1]), s[2], s[3]);
  }

  /** The check after each commit: the checksum of a commit and its checksum is zero. */
  lemma OwnBytesGiveZero(crc: bv32)
    ensures Crc(crc, Bytes(crc)) == 0
  {
    hide CrcByte, Bytes, Shift8, Wide;
    var s := Bytes(crc);
    BytesAre(crc);
    CrcOfFour(crc, s);
    ShiftsOut(crc, s[0]);
    ShiftsOut(Shift8(crc), s[1]);
    ShiftsOut(Shift8(Shift8(crc)), s[2]);
    ShiftsOut(Shift8(Shift8(Shift8(crc))), s[3]);
  }

  lemma StepInjective(x: bv32, y: bv32)
    requires Step(x) == Step(y)
    ensures x == y
  {
  }

  lemma {:induction false} StepsInjective(x: bv32, y: bv32, n: nat)
    requires Steps(x, n) == Steps(y, n)
    ensures x == y
    decreases n
  {
    hide Step;
    if n > 0 {
      StepsInjective(Step(x), Step(y), n - 1);
      StepInjective(x, y);
    }
  }

  lemma XorInjective(x: bv32, y: bv32, a: bv8, b: bv8)
    ensures Xor(x, Wide(a)) == Xor(y, Wide(a)) ==> x == y
    ensures Xor(x, Wide(a)) == Xor(x, Wide(b)) ==> a == b
  {
  }

  lemma {:induction false} CrcInjective(x: bv32, y: bv32, data: seq<bv8>)
    requires Crc(x, data) == Crc(y, data)
    ensures x == y
    decreases |data|
  {
    hide Steps, Wide, Xor;
    if data != [] {
      CrcInjective(CrcByte(x, data[0]), CrcByte(y, data[0]), data[1..]);
      StepsInjective(Xor(x, Wide(data[0])), Xor(y, Wide(data[0])), 8);
      XorInjective(x, y, data[0], 0);
    }
  }

  /** Changing one byte changes the checksum. */
  lemma OneByteIsDetected(crc: bv32, before: seq<bv8>, a: bv8, b: bv8, after: seq<bv8>)
    requires a != b
    ensures Crc(crc, before + [a] + after) != Crc(crc, before + [b] + after)
  {
    hide Steps, Wide, Xor;
    Continued(crc, before + [a], after);
    Continued(crc, before + [b], after);
    Continued(crc, before, [a]);
    Continued(crc, before, [b]);
    var c := Crc(crc, before);
    assert Crc(c, [a]) == CrcByte(c, a) && Crc(c, [b]) == CrcByte(c, b);
    if Crc(crc, before + [a] + after) == Crc(crc, before + [b] + after) {
      CrcInjective(CrcByte(c, a), CrcByte(c, b), after);
      StepsInjective(Xor(c, Wide(a)), Xor(c, Wide(b)), 8);
      XorInjective(c, c, a, b);
      assert false;
    }
  }
}
