/** Operations on the linked blocks of a file: search, traversal and extension. */
module BlockList {
  import opened Basics
  import opened Bits
  import opened CtzList

  type Disk = map<nat, seq<Byte>>

  // ---------------------------------------------------------------- words

  function Le32(w: nat): (r: seq<Byte>)
    requires w < WORD
    ensures |r| == 4
  {
    [w % 0x100, w / 0x100 % 0x100, w / 0x100 / 0x100 % 0x100, w / 0x100 / 0x100 / 0x100]
  }

  function FromLe32(s: seq<Byte>): (r: nat)
    requires |s| == 4
    ensures r < WORD
  {
    (s[0] as int) + 0x100 * ((s[1] as int) + 0x100 * ((s[2] as int) + 0x100 * (s[3] as int)))
  }

  /** Little-endian: every byte counts 0x100 times as much as the one before it. */
  lemma LittleEndian(s: seq<Byte>)
    requires |s| == 4
    ensures FromLe32(s) % 0x100 == s[0] && FromLe32(s) / 0x100 % 0x100 == s[1]
    ensures FromLe32(s) / 0x1_0000 % 0x100 == s[2] && FromLe32(s) / 0x100_0000 == s[3]
  {
    var w := FromLe32(s);
    assert w / 0x100 == (s[1] as int) + 0x100 * ((s[2] as int) + 0x100 * (s[3] as int));
    assert w / 0x100 / 0x100 == w / 0x1_0000 && w / 0x1_0000 / 0x100 == w / 0x100_0000;
  }

  lemma Le32RoundTrip(w: nat)
    requires w < WORD
    ensures FromLe32(Le32(w)) == w
  {
  }

  /** The j-th pointer of a block. */
  function Pointer(block: seq<Byte>, j: nat): nat
    requires 4 * j + 4 <= |block|
  {
    FromLe32(block[4 * j..4 * j + 4])
  }

  // ---------------------------------------------------------------- lists

  predicate PointersOk(disk: Disk, bs: nat, blocks: seq<nat>, k: nat)
    requires k < |blocks| && blocks[k] in disk && |disk[blocks[k]]| == bs
  {
    k > 0 ==>
      && 4 * Ptrs(k) <= bs
      && Pow2(Ctz(k)) <= k
      && forall j :: 0 <= j <= Ctz(k) && Pow2(j) <= k ==> Pointer(disk[blocks[k]], j) == blocks[k - Pow2(j)]
  }

  /** The blocks of a file, first to last: block k points back to block k - 2^j for every j up to
      ctz(k). */
  predicate Linked(disk: Disk, bs: nat, blocks: seq<nat>) {
    && ValidSize(bs) && |blocks| <= LAST_BLOCK + 1
    && (forall k :: 0 <= k < |blocks| ==> blocks[k] < WORD && blocks[k] in disk && |disk[blocks[k]]| == bs)
    && (forall k :: 0 <= k < |blocks| ==> PointersOk(disk, bs, blocks, k))
  }

  lemma PointerAt(disk: Disk, bs: nat, blocks: seq<nat>, k: nat, j: nat)
    requires Linked(disk, bs, blocks) && 0 < k < |blocks| && j <= Ctz(k)
    ensures Pow2(j) <= k && 4 * j + 4 <= bs
    ensures Pointer(disk[blocks[k]], j) == blocks[k - Pow2(j)]
  {
    assert PointersOk(disk, bs, blocks, k);
    Pow2Monotone(j, Ctz(k));
  }

  /** As many blocks as a size needs. */
  ghost predicate Sized(bs: nat, blocks: seq<nat>, size: nat)
    requires ValidSize(bs)
  {
    size < POS_END && |blocks| == if size == 0 then 0 else LocOf(bs, size - 1).0 + 1
  }

  ghost function ByteAt(disk: Disk, bs: nat, blocks: seq<nat>, pos: nat): Byte
    requires Linked(disk, bs, blocks)
  {
    if pos < POS_END && LocOf(bs, pos).0 < |blocks|
    then disk[blocks[LocOf(bs, pos).0]][LocOf(bs, pos).1] else 0
  }

  /** What the file holds. */
  ghost function Content(disk: Disk, bs: nat, blocks: seq<nat>, size: nat): (r: seq<Byte>)
    requires Linked(disk, bs, blocks)
    ensures |r| == size
  {
    seq(size, p requires 0 <= p < size => ByteAt(disk, bs, blocks, p))
  }

  // ---------------------------------------------------------------- search

  /** How many hops are left, at most, from a block with `c` trailing zeros at distance `d`: the
      search first climbs to blocks with more zeros, then halves the distance. */
  function HopsLeft(c: nat, d: nat): nat {
    if d == 0 then 0
    else if c < Log2(d) then 2 * Log2(d) - c + 1
    else Log2(d) + 1
  }

  /** The hops left between two blocks. */
  function Budget(current: nat, target: nat): nat
    requires target <= current
  {
    HopsLeft(if current > 0 then Ctz(current) else 0, current - target)
  }

  lemma BudgetStart(current: nat, target: nat)
    requires target < current
    ensures Budget(current, target) <= 2 * Log2(current - target) + 1
  {
  }

  /** The hop the search takes. */
  function Skip(current: nat, target: nat): nat
    requires target < current
  {
    var high, low := Log2(current - target), Ctz(current);
    if high < low then high else low
  }

  /** One hop, over 2^skip blocks, does not overshoot and is paid for. */
  lemma HopPays(current: nat, target: nat)
    requires target < current
    ensures Pow2(Skip(current, target)) <= current - target
    ensures Budget(current - Pow2(Skip(current, target)), target) + 1 <= Budget(current, target)
  {
    var d, skip := current - target, Skip(current, target);
    Log2Bounds(d);
    Pow2Monotone(skip, Log2(d));
    var d' := d - Pow2(skip);
    if d' > 0 {
      CtzAfterSkip(current, skip);
      Log2Monotone(d', d);
      if skip == Log2(d) {
        // the highest bit of the distance is gone
        Log2Bounds(d');
        if Log2(d') == Log2(d) {
          assert false;
        }
      }
    }
  }

  lemma HopIs(disk: Disk, blocks: seq<nat>, a: nat, b: nat, j: nat)
    requires b < a < |blocks| && blocks[a] in disk && j <= Ctz(a) && 4 * j + 4 <= |disk[blocks[a]]|
    requires Pointer(disk[blocks[a]], j) == blocks[b]
    ensures Hop(disk, blocks, a, b)
  {
  }

  /** One of the pointers of a block leads to another. */
  ghost predicate Hop(disk: Disk, blocks: seq<nat>, a: nat, b: nat) {
    && b < a < |blocks| && blocks[a] in disk
    && exists j :: 0 <= j <= Ctz(a) && 4 * j + 4 <= |disk[blocks[a]]| && Pointer(disk[blocks[a]], j) == blocks[b]
  }

  ghost predicate Hops(disk: Disk, blocks: seq<nat>, route: seq<nat>) {
    forall k :: 0 <= k < |route| - 1 ==> Hop(disk, blocks, route[k], route[k + 1])
  }

  /** lfs_ctz_find: from the last block to the block that holds a position. */
  method CtzFind(disk: Disk, bs: nat, head0: nat, size: nat, pos: nat, ghost blocks: seq<nat>)
    returns (block: nat, off: nat, ghost route: seq<nat>)
    requires Linked(disk, bs, blocks) && Sized(bs, blocks, size) && pos < POS_END
    requires size > 0 ==> head0 == blocks[|blocks| - 1]
    ensures size == 0 ==> block == BLOCK_NULL && off == 0
    ensures pos < size ==> LocOf(bs, pos).0 < |blocks| && block == blocks[LocOf(bs, pos).0] && off == LocOf(bs, pos).1
    ensures pos < size ==> route != [] && route[0] == |blocks| - 1 && route[|route| - 1] == LocOf(bs, pos).0
    ensures Hops(disk, blocks, route)
    ensures pos < size ==>
              var d := |blocks| - 1 - LocOf(bs, pos).0; |route| - 1 <= if d == 0 then 0 else 2 * Log2(d) + 1
  {
    hide Pointer, PointersOk, Pow2, IsLoc, Log2, Ctz, Budget, Hop;
    route := [];
    if size == 0 {
      return BLOCK_NULL, 0, route;
    }
    route := [|blocks| - 1];
    var current, _ := CtzIndex(bs, size - 1);
    var target;
    target, off := CtzIndex(bs, pos);
    if pos < size {
      LocMonotone(bs, pos, size - 1);
    }
    if current <= target {
      return head0, off, route;
    }
    var head := head0;
    BudgetStart(current, target);
    ghost var limit := 2 * Log2(current - target) + 1;
    while current > target
      invariant target <= current < |blocks| && head == blocks[current]
      invariant route != [] && route[0] == |blocks| - 1 && route[|route| - 1] == current
      invariant Hops(disk, blocks, route) && |route| - 1 + Budget(current, target) <= limit
    {
      var n := Npw2(current - target + 1);
      var skip := if n - 1 < Ctz(current) then n - 1 else Ctz(current);
      HopPays(current, target);
      PointerAt(disk, bs, blocks, current, skip);
      head := Pointer(disk[head], skip);
      HopIs(disk, blocks, current, current - Pow2(skip), skip);
      current := current - Pow2(skip);
      route := route + [current];
    }
    block := head;
  }

  // ---------------------------------------------------------------- traversal

  function Reversed(s: seq<nat>): (r: seq<nat>)
    ensures |r| == |s|
  {
    if s == [] then [] else [s[|s| - 1]] + Reversed(s[..|s| - 1])
  }

  /** Every block but the first points to its predecessor, an even one also to the one before. */
  lemma FirstPointers(disk: Disk, bs: nat, blocks: seq<nat>, k: nat)
    requires Linked(disk, bs, blocks) && 0 < k < |blocks|
    ensures 8 <= bs && Pointer(disk[blocks[k]], 0) == blocks[k - 1]
    ensures k % 2 == 0 ==> Pointer(disk[blocks[k]], 1) == blocks[k - 2]
  {
    hide Pointer;
    Pow2Step(0);
    PointerAt(disk, bs, blocks, k, 0);
    if k % 2 == 0 {
      assert Ctz(k) >= 1;
      PointerAt(disk, bs, blocks, k, 1);
    }
  }

  lemma NoneLeft(blocks: seq<nat>)
    ensures Reversed(blocks[..0]) == [] && blocks[..|blocks|] == blocks
  {
  }

  lemma TakeLast(blocks: seq<nat>, k: nat, visited: seq<nat>)
    requires k < |blocks|
    ensures visited + Reversed(blocks[..k + 1]) == (visited + [blocks[k]]) + Reversed(blocks[..k])
  {
    assert blocks[..k + 1][..k] == blocks[..k];
  }

  /** lfs_ctz_traverse: visits every block once, last to first, reading one pointer per odd block
      and two per even block. */
  method CtzTraverse(disk: Disk, bs: nat, head0: nat, size: nat, ghost blocks: seq<nat>)
    returns (visited: seq<nat>)
    requires Linked(disk, bs, blocks) && Sized(bs, blocks, size)
    requires size > 0 ==> head0 == blocks[|blocks| - 1]
    ensures visited == Reversed(blocks)
  {
    hide Pointer, PointersOk, Pow2, Ctz, IsLoc, Reversed;
    visited := [];
    NoneLeft(blocks);
    if size == 0 {
      return;
    }
    var index, _ := CtzIndex(bs, size - 1);
    var head := head0;
    assert blocks[..index + 1] == blocks;
    while true
      invariant 0 <= index < |blocks| && head == blocks[index]
      invariant visited + Reversed(blocks[..index + 1]) == Reversed(blocks)
      decreases index
    {
      TakeLast(blocks, index, visited);
      visited := visited + [head];
      if index == 0 {
        return;
      }
      var count := 2 - index % 2;
      FirstPointers(disk, bs, blocks, index);
      if count == 2 {
        TakeLast(blocks, index - 1, visited);
        visited := visited + [Pointer(disk[head], 0)];
      }
      head := Pointer(disk[head], count - 1);
      index := index - count;
    }
  }

  // ---------------------------------------------------------------- extension

  /** The blocks after an extension: the last one is replaced while it has room, else a block is
      added. */
  ghost function Extended(bs: nat, blocks: seq<nat>, size: nat, nblock: nat): seq<nat>
    requires ValidSize(bs) && Sized(bs, blocks, size)
  {
    if size == 0 then [nblock]
    else if LocOf(bs, size - 1).1 + 1 < bs then blocks[|blocks| - 1 := nblock]
    else blocks + [nblock]
  }

  /** A block was programmed at most from its start up to `off`. */
  predicate OnlyChanged(before: Disk, after: Disk, block: nat) {
    && before.Keys == after.Keys
    && forall b :: b in before && b != block ==> after[b] == before[b]
  }

  method ProgBytes(disk: Disk, block: nat, off: nat, data: seq<Byte>) returns (disk': Disk)
    requires block in disk && off + |data| <= |disk[block]|
    ensures disk' == disk[block := disk[block][..off] + data + disk[block][off + |data|..]]
  {
    disk' := disk[block := disk[block][..off] + data + disk[block][off + |data|..]];
  }

  /** A block points back from the end of a list as the list's next block should. */
  predicate PointsBack(block: seq<Byte>, blocks: seq<nat>)
    requires |blocks| > 0
  {
    && 4 * Ptrs(|blocks|) <= |block| && Pow2(Ctz(|blocks|)) <= |blocks|
    && forall j :: 0 <= j <= Ctz(|blocks|) && Pow2(j) <= |blocks| ==>
         Pointer(block, j) == blocks[|blocks| - Pow2(j)]
  }

  lemma PutPointer(block: seq<Byte>, i: nat, w: nat)
    requires 4 * i + 4 <= |block| && w < WORD
    ensures var after := block[..4 * i] + Le32(w) + block[4 * i + 4..];
            && |after| == |block| && Pointer(after, i) == w
            && forall j :: 0 <= j < i ==> Pointer(after, j) == Pointer(block, j)
  {
    hide Le32, FromLe32;
    var after := block[..4 * i] + Le32(w) + block[4 * i + 4..];
    Le32RoundTrip(w);
    assert after[4 * i..4 * i + 4] == Le32(w);
    forall j | 0 <= j < i
      ensures Pointer(after, j) == Pointer(block, j)
    {
      assert after[4 * j..4 * j + 4] == block[4 * j..4 * j + 4];
    }
  }

  /** The first `i` pointers of a block are those of the list's next block. */
  predicate PointsUpTo(block: seq<Byte>, blocks: seq<nat>, i: nat)
    requires 4 * i <= |block|
  {
    forall j :: 0 <= j < i && Pow2(j) <= |blocks| ==> Pointer(block, j) == blocks[|blocks| - Pow2(j)]
  }

  lemma NoPointers(block: seq<Byte>, blocks: seq<nat>)
    ensures PointsUpTo(block, blocks, 0)
  {
  }

  lemma PointNext(block: seq<Byte>, blocks: seq<nat>, i: nat, w: nat)
    requires 4 * i + 4 <= |block| && w < WORD && PointsUpTo(block, blocks, i)
    requires Pow2(i) <= |blocks| ==> w == blocks[|blocks| - Pow2(i)]
    ensures var after := block[..4 * i] + Le32(w) + block[4 * i + 4..];
            |after| == |block| && PointsUpTo(after, blocks, i + 1)
  {
    hide Pointer, Pow2, Le32;
    PutPointer(block, i, w);
  }

  lemma AllPointers(block: seq<Byte>, blocks: seq<nat>)
    requires |blocks| > 0 && 4 * (Ctz(|blocks|) + 1) <= |block| && Pow2(Ctz(|blocks|)) <= |blocks|
    requires PointsUpTo(block, blocks, Ctz(|blocks|) + 1)
    ensures PointsBack(block, blocks)
  {
    hide Pointer, Pow2, Ctz;
  }

  /** Appending a block: the pointers are found by following each other. */
  method ProgPointers(disk0: Disk, bs: nat, head: nat, nblock: nat, index: nat, ghost blocks: seq<nat>)
    returns (disk: Disk)
    requires index == |blocks| && Linked(disk0, bs, blocks) && |blocks| > 0 && head == blocks[|blocks| - 1]
    requires nblock !in blocks && nblock in disk0 && |disk0[nblock]| == bs
    requires |blocks| <= LAST_BLOCK
    ensures OnlyChanged(disk0, disk, nblock) && |disk[nblock]| == bs
    ensures PointsBack(disk[nblock], blocks)
  {
    hide FromLe32, Pointer, Ctz, Pow2, PointsUpTo;
    disk := disk0;
    FewBits(index);
    NoPointers(disk0[nblock], blocks);
    CtzBound(index);
    Pow2Step(0);
    var skips := Ctz(index) + 1;
    var nhead := head;
    for i := 0 to skips
      invariant OnlyChanged(disk0, disk, nblock) && |disk[nblock]| == bs
      invariant i < skips ==> Pow2(i) <= index && nhead == blocks[index - Pow2(i)]
      invariant PointsUpTo(disk[nblock], blocks, i)
    {
      PointNext(disk[nblock], blocks, i, nhead);
      disk := ProgBytes(disk, nblock, 4 * i, Le32(nhead));
      if i != skips - 1 {
        Pow2Monotone(i + 1, Ctz(index));
        Pow2Step(i);
        CtzAfterSkip(index, i);
        PointerAt(disk0, bs, blocks, index - Pow2(i), i);
        nhead := Pointer(disk[nhead], i);
      }
    }
    AllPointers(disk[nblock], blocks);
  }

  /** Copying the used part of the last block. */
  method CopyBytes(disk0: Disk, bs: nat, head: nat, nblock: nat, noff: nat) returns (disk: Disk)
    requires head in disk0 && nblock in disk0 && head != nblock
    requires |disk0[head]| == bs && |disk0[nblock]| == bs && noff <= bs
    ensures OnlyChanged(disk0, disk, nblock) && |disk[nblock]| == bs
    ensures disk[nblock][..noff] == disk0[head][..noff]
  {
    disk := disk0;
    for i := 0 to noff
      invariant OnlyChanged(disk0, disk, nblock) && |disk[nblock]| == bs
      invariant disk[nblock][..i] == disk0[head][..i]
    {
      var data := disk[head][i];
      disk := ProgBytes(disk, nblock, i, [data]);
      assert disk[nblock][..i + 1] == disk0[head][..i] + [data];
    }
  }

  /** The new end of the list has room for the byte at position `size`, and everything before
      that position reads as it did. */
  ghost predicate IsExtension(disk0: Disk, disk: Disk, bs: nat, blocks: seq<nat>, size: nat, nblock: nat, off: nat)
    requires Linked(disk0, bs, blocks) && Sized(bs, blocks, size)
  {
    var more := Extended(bs, blocks, size, nblock);
    && OnlyChanged(disk0, disk, nblock)
    && Linked(disk, bs, more)
    && LocOf(bs, size) == (|more| - 1, off)
    && more[|more| - 1] == nblock
    && Content(disk, bs, more, size) == Content(disk0, bs, blocks, size)
  }

  /** lfs_ctz_extend: makes room for the byte at position `size`, in a fresh block. */
  method CtzExtend(disk0: Disk, bs: nat, head: nat, size: nat, nblock: nat, ghost blocks: seq<nat>)
    returns (disk: Disk, block: nat, off: nat)
    requires Linked(disk0, bs, blocks) && Sized(bs, blocks, size)
    requires size > 0 ==> head == blocks[|blocks| - 1]
    requires nblock < WORD && nblock !in blocks && nblock in disk0 && |disk0[nblock]| == bs
    ensures block == nblock && IsExtension(disk0, disk, bs, blocks, size, nblock, off)
  {
    hide Pointer, PointersOk, Content, ByteAt, IsLoc, Ctz, IsExtension, PointsBack;
    if size == 0 {
      assert blocks == [];
      FirstExtension(disk0, bs, nblock);
      return disk0, nblock, 0;
    }
    var index, noff := CtzIndex(bs, size - 1);
    noff := noff + 1;
    block := nblock;
    if noff != bs {
      // room is left in the last block: its pointers and bytes go to the new one
      disk := CopyBytes(disk0, bs, head, nblock, noff);
      off := noff;
      CopyExtends(disk0, disk, bs, blocks, size, nblock);
    } else {
      // the last block is full: the new one gets pointers only
      LocNext(bs, size - 1);
      disk := ProgPointers(disk0, bs, head, nblock, index + 1, blocks);
      off := 4 * (Ctz(index + 1) + 1);
      AppendExtends(disk0, disk, bs, blocks, size, nblock);
    }
  }

  lemma FirstExtension(disk: Disk, bs: nat, nblock: nat)
    requires Linked(disk, bs, []) && nblock < WORD && nblock in disk && |disk[nblock]| == bs
    ensures IsExtension(disk, disk, bs, [], 0, nblock, 0)
  {
    LocZero(bs);
    ExtendFirst(disk, bs, nblock);
  }

  lemma CopyExtends(disk0: Disk, disk: Disk, bs: nat, blocks: seq<nat>, size: nat, nblock: nat)
    requires ValidSize(bs) && Linked(disk0, bs, blocks) && Sized(bs, blocks, size) && size > 0
    requires nblock < WORD && nblock !in blocks && OnlyChanged(disk0, disk, nblock)
    requires nblock in disk && |disk[nblock]| == bs
    requires var noff := LocOf(bs, size - 1).1 + 1;
             noff < bs && disk[nblock][..noff] == disk0[blocks[|blocks| - 1]][..noff]
    ensures IsExtension(disk0, disk, bs, blocks, size, nblock, LocOf(bs, size - 1).1 + 1)
  {
    hide Pointer, PointersOk, Content, ByteAt, IsLoc, Ctz, Linked, OnlyChanged;
    LocNext(bs, size - 1);
    CopyLinks(disk0, disk, bs, blocks, nblock, LocOf(bs, size - 1).1 + 1);
    CopyContent(disk0, disk, bs, blocks, size, nblock);
  }

  lemma AppendExtends(disk0: Disk, disk: Disk, bs: nat, blocks: seq<nat>, size: nat, nblock: nat)
    requires ValidSize(bs) && Linked(disk0, bs, blocks) && Sized(bs, blocks, size) && size > 0
    requires nblock < WORD && nblock !in blocks && OnlyChanged(disk0, disk, nblock)
    requires nblock in disk && |disk[nblock]| == bs && LocOf(bs, size - 1).1 + 1 == bs
    requires PointsBack(disk[nblock], blocks)
    ensures IsExtension(disk0, disk, bs, blocks, size, nblock, 4 * (Ctz(|blocks|) + 1))
  {
    hide Pointer, PointersOk, Content, ByteAt, IsLoc, Ctz, PointsBack, Linked, OnlyChanged;
    LocNext(bs, size - 1);
    AppendLinks(disk0, disk, bs, blocks, nblock);
    AppendContent(disk0, disk, bs, blocks, size, nblock);
  }

  lemma ExtendFirst(disk: Disk, bs: nat, nblock: nat)
    requires ValidSize(bs) && nblock < WORD && nblock in disk && |disk[nblock]| == bs
    ensures Linked(disk, bs, [nblock])
  {
    assert PointersOk(disk, bs, [nblock], 0);
  }

  lemma SamePointers(disk: Disk, disk': Disk, bs: nat, blocks: seq<nat>, blocks': seq<nat>, k: nat)
    requires k < |blocks| && k < |blocks'| && blocks[k] in disk && blocks'[k] in disk'
    requires |disk[blocks[k]]| == bs == |disk'[blocks'[k]]|
    requires PointersOk(disk, bs, blocks, k)
    requires forall i :: 0 <= i < k ==> blocks[i] == blocks'[i]
    requires 4 * Ptrs(k) <= bs && disk'[blocks'[k]][..4 * Ptrs(k)] == disk[blocks[k]][..4 * Ptrs(k)]
    ensures PointersOk(disk', bs, blocks', k)
  {
    if k > 0 {
      forall j | 0 <= j <= Ctz(k) && Pow2(j) <= k
        ensures Pointer(disk'[blocks'[k]], j) == blocks'[k - Pow2(j)]
      {
        var n := 4 * Ptrs(k);
        assert disk'[blocks'[k]][4 * j..4 * j + 4] == disk'[blocks'[k]][..n][4 * j..4 * j + 4];
        assert disk[blocks[k]][4 * j..4 * j + 4] == disk[blocks[k]][..n][4 * j..4 * j + 4];
        assert Pointer(disk[blocks[k]], j) == blocks[k - Pow2(j)];
      }
    }
  }

  lemma CopyLinks(disk0: Disk, disk: Disk, bs: nat, blocks: seq<nat>, nblock: nat, noff: nat)
    requires Linked(disk0, bs, blocks) && |blocks| > 0
    requires nblock < WORD && nblock !in blocks && OnlyChanged(disk0, disk, nblock)
    requires nblock in disk && |disk[nblock]| == bs
    requires 4 * Ptrs(|blocks| - 1) <= noff <= bs && disk[nblock][..noff] == disk0[blocks[|blocks| - 1]][..noff]
    ensures Linked(disk, bs, blocks[|blocks| - 1 := nblock])
  {
    hide Pointer, Pow2, Ctz;
    var more := blocks[|blocks| - 1 := nblock];
    forall k | 0 <= k < |more|
      ensures PointersOk(disk, bs, more, k)
    {
      FewBits(k);
      if k == |blocks| - 1 {
        var n := 4 * Ptrs(k);
        assert disk[nblock][..n] == disk[nblock][..noff][..n];
        assert disk0[blocks[k]][..n] == disk0[blocks[k]][..noff][..n];
      }
      SamePointers(disk0, disk, bs, blocks, more, k);
    }
  }

  lemma CopyContent(disk0: Disk, disk: Disk, bs: nat, blocks: seq<nat>, size: nat, nblock: nat)
    requires Linked(disk0, bs, blocks) && Sized(bs, blocks, size) && size > 0
    requires nblock !in blocks && OnlyChanged(disk0, disk, nblock)
    requires Linked(disk, bs, blocks[|blocks| - 1 := nblock])
    requires nblock in disk && |disk[nblock]| == bs
    requires var noff := LocOf(bs, size - 1).1 + 1;
             disk[nblock][..noff] == disk0[blocks[|blocks| - 1]][..noff]
    ensures Content(disk, bs, blocks[|blocks| - 1 := nblock], size) == Content(disk0, bs, blocks, size)
  {
    var more := blocks[|blocks| - 1 := nblock];
    var noff := LocOf(bs, size - 1).1 + 1;
    forall p | 0 <= p < size
      ensures ByteAt(disk, bs, more, p) == ByteAt(disk0, bs, blocks, p)
    {
      LocMonotone(bs, p, size - 1);
      var (i, off) := LocOf(bs, p);
      if i == |blocks| - 1 {
        assert off < noff;
        assert disk[nblock][off] == disk[nblock][..noff][off];
        assert disk0[blocks[i]][off] == disk0[blocks[i]][..noff][off];
      }
    }
  }

  lemma AppendLinks(disk0: Disk, disk: Disk, bs: nat, blocks: seq<nat>, nblock: nat)
    requires Linked(disk0, bs, blocks) && 0 < |blocks| <= LAST_BLOCK
    requires nblock < WORD && nblock !in blocks && OnlyChanged(disk0, disk, nblock)
    requires nblock in disk && |disk[nblock]| == bs
    requires PointsBack(disk[nblock], blocks)
    ensures Linked(disk, bs, blocks + [nblock])
  {
    hide Pointer, Pow2, Ctz;
    var more := blocks + [nblock];
    forall k | 0 <= k < |more|
      ensures PointersOk(disk, bs, more, k)
    {
      FewBits(k);
      if k < |blocks| {
        SamePointers(disk0, disk, bs, blocks, more, k);
      }
    }
  }

  lemma AppendContent(disk0: Disk, disk: Disk, bs: nat, blocks: seq<nat>, size: nat, nblock: nat)
    requires Linked(disk0, bs, blocks) && Sized(bs, blocks, size) && size > 0
    requires nblock !in blocks && OnlyChanged(disk0, disk, nblock) && Linked(disk, bs, blocks + [nblock])
    ensures Content(disk, bs, blocks + [nblock], size) == Content(disk0, bs, blocks, size)
  {
    forall p | 0 <= p < size
      ensures ByteAt(disk, bs, blocks + [nblock], p) == ByteAt(disk0, bs, blocks, p)
    {
      LocMonotone(bs, p, size - 1);
    }
  }
}
