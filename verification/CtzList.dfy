/** The block lists that store file data.

    Block k of a file starts with ctz(k)+1 pointers, the j-th one to block k-2^j, and the rest is
    data; the file is known by its last block and its size. This module proves the closed form
    that locates a position, the logarithmic search, the extension by one block, and the
    traversal. */
module CtzList {
  import opened Basics
  import opened Bits

  /** File positions fit in 31 bits. */
  const POS_END := 0x8000_0000

  /** Blocks hold at least 128 bytes, which leaves room for all pointers. */
  predicate ValidSize(bs: nat) {
    128 <= bs < 0x8000_0000
  }

  // ---------------------------------------------------------------- positions

  /** How many pointers block k starts with. */
  function Ptrs(k: nat): nat {
    if k == 0 then 0 else Ctz(k) + 1
  }

  /** The file position of the first data byte of block i: the payloads of the blocks before. */
  function Start(bs: nat, i: nat): int {
    if i == 0 then 0 else Start(bs, i - 1) + bs - 4 * Ptrs(i - 1)
  }

  /** The sum in closed form. */
  lemma {:induction false} StartClosed(bs: nat, i: nat)
    requires i > 0
    ensures Start(bs, i) == (bs - 8) * i + 8 + 4 * Popc(i - 1)
    decreases i
  {
    if i > 1 {
      StartClosed(bs, i - 1);
      PopcPred(i - 1);
      assert (bs - 8) * i == (bs - 8) * (i - 1) + (bs - 8);
    }
  }

  /** The highest block index a position can have. */
  const LAST_BLOCK := 0x111_1111

  /** A position is byte `off` of block i. */
  predicate IsLoc(bs: nat, pos: nat, i: nat, off: nat) {
    Start(bs, i) <= pos < Start(bs, i + 1) && off == pos - Start(bs, i) + 4 * Ptrs(i)
  }

  /** Small block numbers have few bits. */
  lemma FewBits(n: nat)
    requires n < 0x200_0000
    ensures Popc(n) <= 25 && Ptrs(n) <= 25
  {
    if n > 0 {
      PopcBound(n);
      CtzBound(n);
      Log2Bounds(n);
      Pow25();
      if Log2(n) >= 25 {
        Pow2Monotone(25, Log2(n));
      }
    }
  }

  lemma Pow25()
    ensures Pow2(25) == 0x200_0000
  {
    assert Pow2(8) == 256;
    assert Pow2(16) == 65536 by { assert Pow2(12) == 4096; }
    assert Pow2(20) == 0x10_0000;
  }

  /** Block payloads are positive for every block a file can have. */
  lemma PayloadPositive(bs: nat, i: nat)
    requires ValidSize(bs) && i < 0x200_0000
    ensures Start(bs, i + 1) >= Start(bs, i) + 28
  {
    FewBits(i);
  }

  lemma {:induction false} StartMonotone(bs: nat, i: nat, j: nat)
    requires ValidSize(bs) && i <= j <= 0x200_0000
    ensures Start(bs, i) <= Start(bs, j)
    decreases j
  {
    if i < j {
      StartMonotone(bs, i, j - 1);
      PayloadPositive(bs, j - 1);
    }
  }

  /** A position lies in one block only. */
  lemma LocUnique(bs: nat, pos: nat, i: nat, off: nat, j: nat, off': nat)
    requires ValidSize(bs) && i < 0x200_0000 && j < 0x200_0000
    requires IsLoc(bs, pos, i, off) && IsLoc(bs, pos, j, off')
    ensures i == j && off == off'
  {
    if i < j {
      StartMonotone(bs, i + 1, j);
    } else if j < i {
      StartMonotone(bs, j + 1, i);
    }
  }

  function Div(a: nat, b: nat): nat
    requires b > 0
  {
    a / b
  }

  lemma Products(b: nat, i: nat)
    requires i > 0
    ensures b * i == i * b && b * (i - 1) == b * i - b && b * (i + 1) == b * i + b
    ensures b >= 120 ==> 120 * i <= b * i
  {
  }

  lemma QuotientCase(rest: nat, b: nat, i: nat)
    requires b > 0 && i > 0 && b * i - b <= rest < b * i + b
    ensures rest / b == if rest >= b * i then i else i - 1
  {
    Products(b, i);
    if rest >= b * i {
      QuotientUnique(rest, b, i);
    } else {
      QuotientUnique(rest, b, i - 1);
    }
  }

  lemma DivisionBounds(pos: nat, b: nat)
    requires b > 0
    ensures b * (pos / b) <= pos < b * (pos / b) + b
  {
    assert pos == b * (pos / b) + pos % b;
  }

  /** The first estimate is the block index or one too many. */
  lemma LocCases(b: nat, pos: nat, i: nat)
    requires 120 <= b && pos < POS_END && i == Div(pos, b) && i > 0
    ensures pos >= 4 * (Popc(i - 1) + 2)
    ensures var k := Div(pos - 4 * (Popc(i - 1) + 2), b);
            && k == (if pos >= b * i + 8 + 4 * Popc(i - 1) then i else i - 1)
            && b * k + 4 * Popc(k) <= pos
    ensures b * i <= pos < b * i + b && i <= LAST_BLOCK
  {
    DivisionBounds(pos, b);
    Products(b, i);
    FewBits(i - 1);
    PopcPred(i);
    QuotientCase(pos - 4 * (Popc(i - 1) + 2), b, i);
    if i > 1 {
      PopcPred(i - 1);
    }
  }

  lemma LocFirst(bs: nat, pos: nat)
    requires pos < bs
    ensures IsLoc(bs, pos, 0, pos) && Popc(0) == 0 && Ptrs(0) == 0
  {
  }

  lemma LocInside(bs: nat, pos: nat, k: nat)
    requires ValidSize(bs) && 0 < k < 0x200_0000
    requires (bs - 8) * k + 8 + 4 * Popc(k - 1) <= pos < (bs - 8) * k + (bs - 8) + 8 + 4 * Popc(k)
    ensures pos - (bs - 8) * k - 4 * Popc(k) >= 0
    ensures IsLoc(bs, pos, k, pos - (bs - 8) * k - 4 * Popc(k))
    ensures 4 * Ptrs(k) <= pos - (bs - 8) * k - 4 * Popc(k) < bs
  {
    PopcPred(k);
    StartClosed(bs, k);
    StartClosed(bs, k + 1);
    Products(bs - 8, k);
  }

  lemma FirstBlock(bs: nat, pos: nat)
    requires ValidSize(bs) && Div(pos, bs - 8) == 0
    ensures pos < bs && IsLoc(bs, pos, 0, pos) && Ptrs(0) == 0
  {
    DivisionBounds(pos, bs - 8);
    LocFirst(bs, pos);
  }

  lemma IndexCases(bs: nat, pos: nat, i: nat)
    requires ValidSize(bs) && pos < POS_END && i == Div(pos, bs - 8) && i > 0
    ensures var k: nat := if pos >= (bs - 8) * i + 8 + 4 * Popc(i - 1) then i else i - 1;
            var off := pos - (bs - 8) * k - 4 * Popc(k);
            off >= 0 && IsLoc(bs, pos, k, off) && 4 * Ptrs(k) <= off < bs && k <= LAST_BLOCK
  {
    hide Div, Popc, IsLoc, Ptrs;
    var b := bs - 8;
    LocCases(b, pos, i);
    Products(b, i);
    if pos >= b * i + 8 + 4 * Popc(i - 1) {
      FewBitsLess(i);
      LocInside(bs, pos, i);
    } else if i > 1 {
      FewBits(i - 2);
      LocInside(bs, pos, i - 1);
    } else {
      PopcZero();
      LocFirst(bs, pos);
    }
  }

  lemma PopcZero()
    ensures Popc(0) == 0
  {
  }

  lemma FewBitsLess(i: nat)
    requires 0 < i < 0x200_0000
    ensures 0 <= Popc(i - 1) && Popc(i) >= 1
  {
    PopcBound(i);
  }

  // ---------------------------------------------------------------- positions, as functions

  lemma LocExists(bs: nat, pos: nat)
    requires ValidSize(bs) && pos < POS_END
    ensures exists i: nat, off: nat :: IsLoc(bs, pos, i, off) && i <= LAST_BLOCK
  {
    hide Div, Popc, IsLoc, Ptrs;
    var i := Div(pos, bs - 8);
    if i == 0 {
      FirstBlock(bs, pos);
    } else {
      IndexCases(bs, pos, i);
    }
  }

  ghost function LocOf(bs: nat, pos: nat): (r: (nat, nat))
    requires ValidSize(bs) && pos < POS_END
    ensures IsLoc(bs, pos, r.0, r.1) && r.0 <= LAST_BLOCK && 4 * Ptrs(r.0) <= r.1 < bs
  {
    LocExists(bs, pos);
    var i: nat, off: nat :| IsLoc(bs, pos, i, off) && i <= LAST_BLOCK;
    (i, off)
  }

  lemma LocIs(bs: nat, pos: nat, i: nat, off: nat)
    requires ValidSize(bs) && pos < POS_END && IsLoc(bs, pos, i, off) && i < 0x200_0000
    ensures LocOf(bs, pos) == (i, off)
  {
    LocUnique(bs, pos, i, off, LocOf(bs, pos).0, LocOf(bs, pos).1);
  }

  /** The next position is the next byte of the block, or the first data byte of the next one. */
  lemma LocNext(bs: nat, pos: nat)
    requires ValidSize(bs) && pos + 1 < POS_END
    ensures var (i, off) := LocOf(bs, pos);
            LocOf(bs, pos + 1) == if off + 1 < bs then (i, off + 1) else (i + 1, 4 * Ptrs(i + 1))
  {
    var (i, off) := LocOf(bs, pos);
    if off + 1 < bs {
      LocIs(bs, pos + 1, i, off + 1);
    } else {
      PayloadPositive(bs, i + 1);
      LocIs(bs, pos + 1, i + 1, 4 * Ptrs(i + 1));
    }
  }

  lemma LocZero(bs: nat)
    requires ValidSize(bs)
    ensures LocOf(bs, 0) == (0, 0)
  {
    LocFirst(bs, 0);
    LocIs(bs, 0, 0, 0);
  }

  lemma {:induction false} LocMonotone(bs: nat, p: nat, q: nat)
    requires ValidSize(bs) && p <= q < POS_END
    ensures LocOf(bs, p).0 <= LocOf(bs, q).0
    decreases q
  {
    if p < q {
      LocMonotone(bs, p, q - 1);
      LocNext(bs, q - 1);
    }
  }

  /** lfs_ctz_index: finds by a closed form the block and offset that summing payloads defines.
      No subtraction goes below zero. */
  method CtzIndex(bs: nat, pos: nat) returns (i: nat, off: nat)
    requires ValidSize(bs) && pos < POS_END
    ensures IsLoc(bs, pos, i, off) && (i, off) == LocOf(bs, pos)
    ensures 4 * Ptrs(i) <= off < bs && i <= LAST_BLOCK
  {
    hide Div, Popc, IsLoc, Ptrs;
    var size, b := pos, bs - 8;
    i := Div(size, b);
    if i == 0 {
      FirstBlock(bs, pos);
      LocIs(bs, pos, 0, pos);
      return 0, size;
    }
    LocCases(b, size, i);
    IndexCases(bs, size, i);
    i := Div(size - 4 * (Popc(i - 1) + 2), b);
    off := size - b * i - 4 * Popc(i);
    LocIs(bs, pos, i, off);
  }
}
