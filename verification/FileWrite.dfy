/** Writing to a file, copy on write.

    A write never programs a block the file already uses: the first byte written goes to a fresh
    block that takes over the part of the old block before it, and flushing copies whatever of the
    old file lies behind the last byte written. The module proves that the new list reads as the
    overwritten file and that the old list still reads as before, so a power loss before the
    directory is updated loses nothing. */
module FileWrite {
  import opened Basics
  import opened Bits
  import opened CtzList
  import opened BlockList

  // ---------------------------------------------------------------- programming a run of bytes

  lemma LocRun(bs: nat, pos: nat, j: nat)
    requires ValidSize(bs) && pos + j < POS_END && LocOf(bs, pos).1 + j < bs
    ensures LocOf(bs, pos + j) == (LocOf(bs, pos).0, LocOf(bs, pos).1 + j)
  {
    LocIs(bs, pos + j, LocOf(bs, pos).0, LocOf(bs, pos).1 + j);
  }

  /** Programming data from where the next position belongs leaves the links alone and appends
      the data to what the list holds. */
  lemma ProgAppends(disk: Disk, after: Disk, bs: nat, blocks: seq<nat>, pos: nat, off: nat, data: seq<Byte>)
    requires Linked(disk, bs, blocks) && |blocks| > 0 && |data| > 0 && pos + |data| < POS_END
    requires NoRepeat(blocks) && LocOf(bs, pos) == (|blocks| - 1, off) && off + |data| <= bs
    requires var b := blocks[|blocks| - 1];
             after == disk[b := disk[b][..off] + data + disk[b][off + |data|..]]
    ensures OnlyChanged(disk, after, blocks[|blocks| - 1])
    ensures Linked(after, bs, blocks)
    ensures Content(after, bs, blocks, pos + |data|) == Content(disk, bs, blocks, pos) + data
    ensures Sized(bs, blocks, pos + |data|) && LocOf(bs, pos + |data| - 1) == (|blocks| - 1, off + |data| - 1)
  {
    var n := |blocks| - 1;
    ProgLinks(disk, after, bs, blocks, off, data);
    LocRun(bs, pos, |data| - 1);
    forall p | 0 <= p < pos + |data|
      ensures ByteAt(after, bs, blocks, p) == if p < pos then ByteAt(disk, bs, blocks, p) else data[p - pos]
    {
      if p < pos {
        LocMonotone(bs, p, pos);
        LocBefore(bs, p, pos);
      } else {
        LocRun(bs, pos, p - pos);
      }
    }
  }

  lemma LocBefore(bs: nat, p: nat, q: nat)
    requires ValidSize(bs) && p < q < POS_END
    ensures LocOf(bs, p).0 == LocOf(bs, q).0 ==> LocOf(bs, p).1 < LocOf(bs, q).1
  {
  }

  predicate NoRepeat(blocks: seq<nat>) {
    |blocks| > 0 ==> blocks[|blocks| - 1] !in blocks[..|blocks| - 1]
  }

  lemma ProgLinks(disk: Disk, after: Disk, bs: nat, blocks: seq<nat>, off: nat, data: seq<Byte>)
    requires Linked(disk, bs, blocks) && |blocks| > 0 && NoRepeat(blocks)
    requires 4 * Ptrs(|blocks| - 1) <= off && off + |data| <= bs
    requires var b := blocks[|blocks| - 1];
             after == disk[b := disk[b][..off] + data + disk[b][off + |data|..]]
    ensures Linked(after, bs, blocks)
  {
    hide Pointer, Pow2, Ctz;
    var n := |blocks| - 1;
    forall k | 0 <= k < |blocks|
      ensures |after[blocks[k]]| == bs && PointersOk(after, bs, blocks, k)
    {
      FewBits(k);
      if k < n {
        assert blocks[k] in blocks[..n];
      } else {
        assert after[blocks[n]][..4 * Ptrs(n)] == disk[blocks[n]][..4 * Ptrs(n)];
      }
      SamePointers(disk, after, bs, blocks, blocks, k);
    }
  }

  /** A shorter file uses the first blocks of a longer one. */
  lemma PrefixLinked(disk: Disk, bs: nat, blocks: seq<nat>, n: nat)
    requires Linked(disk, bs, blocks) && n <= |blocks|
    ensures Linked(disk, bs, blocks[..n])
  {
    hide Pointer, Pow2, Ctz;
    forall k | 0 <= k < n
      ensures PointersOk(disk, bs, blocks[..n], k)
    {
      FewBits(k);
      SamePointers(disk, disk, bs, blocks, blocks[..n], k);
    }
  }

  lemma PrefixContent(disk: Disk, bs: nat, blocks: seq<nat>, size: nat, n: nat, pos: nat)
    requires Linked(disk, bs, blocks) && n <= |blocks| && Linked(disk, bs, blocks[..n])
    requires pos <= size < POS_END && (pos > 0 ==> LocOf(bs, pos - 1).0 < n)
    ensures Content(disk, bs, blocks[..n], pos) == Content(disk, bs, blocks, size)[..pos]
  {
    forall p | 0 <= p < pos
      ensures ByteAt(disk, bs, blocks[..n], p) == ByteAt(disk, bs, blocks, p)
    {
      LocMonotone(bs, p, pos - 1);
    }
  }

  /** Changing a block outside a list changes nothing about the list. */
  lemma FrameList(disk: Disk, after: Disk, bs: nat, blocks: seq<nat>, size: nat, block: nat)
    requires Linked(disk, bs, blocks) && OnlyChanged(disk, after, block) && block !in blocks
    ensures Linked(after, bs, blocks) && Content(after, bs, blocks, size) == Content(disk, bs, blocks, size)
  {
    hide Pointer, Pow2, Ctz;
    forall k | 0 <= k < |blocks|
      ensures blocks[k] in after && after[blocks[k]] == disk[blocks[k]]
    {
      assert blocks[k] in blocks;
    }
    forall k | 0 <= k < |blocks|
      ensures PointersOk(after, bs, blocks, k)
    {
      FewBits(k);
      SamePointers(disk, after, bs, blocks, blocks, k);
    }
    forall p | 0 <= p < size
      ensures ByteAt(after, bs, blocks, p) == ByteAt(disk, bs, blocks, p)
    {
    }
  }

  // ---------------------------------------------------------------- overwriting

  function Zeros(n: nat): (r: seq<Byte>)
    ensures |r| == n
  {
    seq(n, _ => 0)
  }

  /** What a file should hold after data was written at a position: beyond the old end, the gap
      reads as zeros. */
  function Patched(content: seq<Byte>, p: nat, data: seq<Byte>): seq<Byte> {
    if p > |content| then content + Zeros(p - |content|) + data
    else content[..p] + data + if p + |data| < |content| then content[p + |data|..] else []
  }

  /** Byte by byte: the data where it was written, the old contents elsewhere, and zeros in a gap. */
  lemma PatchedAt(content: seq<Byte>, p: nat, data: seq<Byte>, i: nat)
    ensures |Patched(content, p, data)| == Max(|content|, p + |data|)
    ensures i < Max(|content|, p + |data|) ==>
              Patched(content, p, data)[i] ==
              if p <= i < p + |data| then data[i - p] else if i < |content| then content[i] else 0
  {
  }

  function Max(a: nat, b: nat): nat {
    if a < b then b else a
  }

  datatype Error = None | NoSpace | TooBig | Invalid

  // ---------------------------------------------------------------- the state of a file

  /** The committed list. */
  ghost predicate BaseIs(disk: Disk, bs: nat, base: seq<nat>, head: nat, size: nat) {
    ValidSize(bs) && Linked(disk, bs, base) && Sized(bs, base, size) && (size > 0 ==> head == base[|base| - 1])
  }

  /** The list being written has room for the byte at `pos`, in a block of its own. */
  ghost predicate Room(disk: Disk, bs: nat, base: seq<nat>, cur: seq<nat>, pos: nat, block: nat, off: nat) {
    && Linked(disk, bs, cur) && |cur| > 0 && NoRepeat(cur) && pos < POS_END
    && block == cur[|cur| - 1] && block !in base && LocOf(bs, pos) == (|cur| - 1, off)
  }

  /** The list being written holds `pos` bytes, the last one just before `off`. */
  ghost predicate CurIs(disk: Disk, bs: nat, base: seq<nat>, cur: seq<nat>, pos: nat, block: nat, off: nat) {
    && Linked(disk, bs, cur) && 0 < pos && Sized(bs, cur, pos) && NoRepeat(cur)
    && block == cur[|cur| - 1] && block !in base && off > 0 && LocOf(bs, pos - 1) == (|cur| - 1, off - 1)
  }

  /** Blocks to be handed out are in nobody's use. */
  predicate Fresh(disk: Disk, bs: nat, avail: seq<nat>, base: seq<nat>, cur: seq<nat>) {
    && (forall i :: 0 <= i < |avail| ==>
          avail[i] < WORD && avail[i] in disk && |disk[avail[i]]| == bs && avail[i] !in base && avail[i] !in cur)
    && (forall i, j :: 0 <= i < j < |avail| ==> avail[i] != avail[j])
  }

  /** Nothing that a list consists of was programmed, so it reads as it did. */
  ghost predicate Kept(disk0: Disk, disk: Disk, bs: nat, base: seq<nat>, size: nat) {
    && Linked(disk0, bs, base) && Linked(disk, bs, base)
    && Content(disk, bs, base, size) == Content(disk0, bs, base, size)
    && forall b :: b in base && b in disk0 ==> b in disk && disk[b] == disk0[b]
  }

  lemma KeptTransitive(d0: Disk, d1: Disk, d2: Disk, bs: nat, base: seq<nat>, size: nat)
    requires Kept(d0, d1, bs, base, size) && Kept(d1, d2, bs, base, size)
    ensures Kept(d0, d2, bs, base, size)
  {
    hide Linked, Content;
  }

  /** Programming a block outside the committed list keeps it. */
  lemma OthersKept(disk0: Disk, disk: Disk, bs: nat, base: seq<nat>, size: nat, block: nat)
    requires Linked(disk0, bs, base) && OnlyChanged(disk0, disk, block) && block !in base
    ensures Kept(disk0, disk, bs, base, size)
  {
    FrameList(disk0, disk, bs, base, size, block);
  }

  lemma FreshTail(disk0: Disk, disk: Disk, bs: nat, avail: seq<nat>, base: seq<nat>, cur: seq<nat>, cur': seq<nat>)
    requires Fresh(disk0, bs, avail, base, cur) && avail != [] && OnlyChanged(disk0, disk, avail[0])
    requires forall b :: b in cur' ==> b in cur || b in base || b == avail[0]
    ensures Fresh(disk, bs, avail[1..], base, cur') && avail[0] !in base && avail[0] !in cur
  {
  }

  lemma FreshKept(disk0: Disk, disk: Disk, bs: nat, avail: seq<nat>, base: seq<nat>, cur: seq<nat>, block: nat)
    requires Fresh(disk0, bs, avail, base, cur) && OnlyChanged(disk0, disk, block) && block in cur
    ensures Fresh(disk, bs, avail, base, cur)
  {
  }

  /** What the file holds up to the position: the bytes written so far, or a prefix of the
      committed content. */
  ghost function Written(disk: Disk, bs: nat, base: seq<nat>, cur: seq<nat>, size: nat, pos: nat,
        writing: bool): seq<Byte>
    requires if writing then Linked(disk, bs, cur) else Linked(disk, bs, base) && pos <= size
  {
    if writing then Content(disk, bs, cur, pos) else Content(disk, bs, base, size)[..pos]
  }

  /** The list that the next block extends. */
  ghost function Source(bs: nat, base: seq<nat>, cur: seq<nat>, pos: nat, writing: bool): seq<nat>
    requires ValidSize(bs) && pos < POS_END
  {
    if writing then cur
    else if pos == 0 then []
    else if LocOf(bs, pos - 1).0 < |base| then base[..LocOf(bs, pos - 1).0 + 1] else base
  }

  lemma SourceIs(disk: Disk, bs: nat, base: seq<nat>, head: nat, size: nat, pos: nat)
    requires BaseIs(disk, bs, base, head, size) && pos <= size
    ensures var src := Source(bs, base, [], pos, false);
            && Linked(disk, bs, src) && Sized(bs, src, pos)
            && (forall b :: b in src ==> b in base)
            && (pos > 0 ==> LocOf(bs, pos - 1).0 < |base| && src[|src| - 1] == base[LocOf(bs, pos - 1).0])
            && Content(disk, bs, src, pos) == Content(disk, bs, base, size)[..pos]
  {
    if pos > 0 {
      LocMonotone(bs, pos - 1, size - 1);
      var n := LocOf(bs, pos - 1).0 + 1;
      PrefixLinked(disk, bs, base, n);
      PrefixContent(disk, bs, base, size, n, pos);
    } else {
      assert base[..0] == [];
      PrefixLinked(disk, bs, base, 0);
    }
  }

  lemma ExtendedRoom(disk0: Disk, disk: Disk, bs: nat, base: seq<nat>, src: seq<nat>, pos: nat, nblock: nat, off: nat)
    requires Linked(disk0, bs, src) && Sized(bs, src, pos) && nblock !in src && nblock !in base
    requires IsExtension(disk0, disk, bs, src, pos, nblock, off)
    ensures var cur := Extended(bs, src, pos, nblock);
            && Room(disk, bs, base, cur, pos, nblock, off)
            && Content(disk, bs, cur, pos) == Content(disk0, bs, src, pos)
            && forall b :: b in cur ==> b in src || b == nblock
  {
    hide Content;
    var cur := Extended(bs, src, pos, nblock);
    forall i | 0 <= i < |cur| - 1
      ensures cur[i] in src
    {
    }
  }

  lemma RoomFilled(disk: Disk, after: Disk, bs: nat, base: seq<nat>, cur: seq<nat>, pos: nat, block: nat, off: nat,
        data: seq<Byte>)
    requires Room(disk, bs, base, cur, pos, block, off)
    requires |data| > 0 && pos + |data| < POS_END && off + |data| <= bs
    requires after == disk[block := disk[block][..off] + data + disk[block][off + |data|..]]
    ensures OnlyChanged(disk, after, block) && CurIs(after, bs, base, cur, pos + |data|, block, off + |data|)
    ensures Content(after, bs, cur, pos + |data|) == Content(disk, bs, cur, pos) + data
  {
    hide Content, Linked;
    ProgAppends(disk, after, bs, cur, pos, off, data);
  }

  /** A block that is not full has room. */
  lemma CurHasRoom(disk: Disk, bs: nat, base: seq<nat>, cur: seq<nat>, pos: nat, block: nat, off: nat)
    requires CurIs(disk, bs, base, cur, pos, block, off) && off < bs
    ensures Room(disk, bs, base, cur, pos, block, off)
  {
    LocNext(bs, pos - 1);
  }

  /** Programming where there is room keeps everything a file relies on. */
  lemma Filled(disk: Disk, after: Disk, bs: nat, base: seq<nat>, cur: seq<nat>, head: nat, size: nat, pos: nat,
      block: nat, off: nat, data: seq<Byte>, avail: seq<nat>)
    requires BaseIs(disk, bs, base, head, size) && Fresh(disk, bs, avail, base, cur)
    requires Room(disk, bs, base, cur, pos, block, off)
    requires |data| > 0 && pos + |data| < POS_END && off + |data| <= bs
    requires after == disk[block := disk[block][..off] + data + disk[block][off + |data|..]]
    ensures BaseIs(after, bs, base, head, size) && Fresh(after, bs, avail, base, cur)
    ensures Kept(disk, after, bs, base, size)
    ensures CurIs(after, bs, base, cur, pos + |data|, block, off + |data|)
    ensures Content(after, bs, cur, pos + |data|) == Content(disk, bs, cur, pos) + data
  {
    hide Content, Linked, LocOf, Kept, Fresh, CurIs;
    RoomFilled(disk, after, bs, base, cur, pos, block, off, data);
    OthersKept(disk, after, bs, base, size, block);
    FreshKept(disk, after, bs, avail, base, cur, block);
    BaseKeeps(disk, after, bs, base, head, size);
  }

  // ---------------------------------------------------------------- how many blocks a write takes

  /** The fresh blocks it takes to write positions p up to q: one for each block a position lies in,
      but for the block that is being written already. */
  ghost function Need(bs: nat, p: nat, q: nat, writing: bool): nat
    requires ValidSize(bs) && q < POS_END
  {
    if q <= p then 0
    else if !writing || p == 0 then
      LocMonotone(bs, p, q - 1);
      LocOf(bs, q - 1).0 - LocOf(bs, p).0 + 1
    else
      LocMonotone(bs, p - 1, q - 1);
      LocOf(bs, q - 1).0 - LocOf(bs, p - 1).0
  }

  /** The fresh blocks it takes to overwrite n bytes at a position and flush: one for each block
      from the first position written to the end of the file. */
  ghost function Blocks(bs: nat, size: nat, start: nat, n: nat): nat
    requires ValidSize(bs) && size < POS_END && start + n < POS_END
  {
    if n == 0 && start <= size then 0 else Need(bs, Min(start, size), Max(start + n, size), false)
  }

  lemma BlocksAre(bs: nat, size: nat, start: nat, n: nat)
    requires ValidSize(bs) && size < POS_END && start + n < POS_END
    ensures var from, end := Min(start, size), start + n;
            Blocks(bs, size, start, n) ==
            Need(bs, from, end, false) + if n == 0 && start <= size then 0 else Need(bs, end, Max(end, size), true)
  {
    hide Need;
    NeedNothing(bs, start, false);
    NeedSum(bs, Min(start, size), start + n, Max(start + n, size), false);
  }

  lemma NeedNothing(bs: nat, p: nat, writing: bool)
    requires ValidSize(bs) && p < POS_END
    ensures Need(bs, p, p, writing) == 0
  {
  }

  /** Whoever went on writing takes up where the first part ended. */
  lemma NeedSum(bs: nat, p: nat, q: nat, r: nat, writing: bool)
    requires ValidSize(bs) && p <= q <= r < POS_END
    ensures Need(bs, p, r, writing) == Need(bs, p, q, writing) + Need(bs, q, r, writing || p < q)
  {
    if p < q < r {
      LocMonotone(bs, q - 1, r - 1);
      if writing && p > 0 {
        LocMonotone(bs, p - 1, q - 1);
      } else {
        LocMonotone(bs, p, q - 1);
      }
    }
  }

  lemma NoZeros(content: seq<Byte>)
    ensures content + Zeros(0) == content
  {
  }

  lemma OneZero(content: seq<Byte>, n: nat)
    ensures content + Zeros(n) + [0] == content + Zeros(n + 1)
  {
  }

  /** Exactly the blocks that writing positions p up to q needs were taken. */
  ghost predicate Taken(bs: nat, avail0: seq<nat>, avail: seq<nat>, p: nat, q: nat, writing: bool) {
    && ValidSize(bs) && q < POS_END
    && var n := Need(bs, p, q, writing); n <= |avail0| && avail == avail0[n..]
  }

  /** All blocks were taken, and there were fewer than writing positions p up to q needs. */
  ghost predicate Short(bs: nat, avail0: seq<nat>, avail: seq<nat>, p: nat, q: nat, writing: bool) {
    ValidSize(bs) && q < POS_END && avail == [] && |avail0| < Need(bs, p, q, writing)
  }

  lemma TakenNone(bs: nat, avail: seq<nat>, p: nat, writing: bool)
    requires ValidSize(bs) && p < POS_END
    ensures Taken(bs, avail, avail, p, p, writing)
  {
    NeedNothing(bs, p, writing);
  }

  /** One more part of a write, which may run out of blocks. */
  lemma TakenMore(bs: nat, a0: seq<nat>, a1: seq<nat>, a2: seq<nat>, p: nat, q: nat, q': nat, r: nat, writing: bool,
      ok: bool)
    requires Taken(bs, a0, a1, p, q, writing) && p <= q <= q' <= r < POS_END
    requires if ok then Taken(bs, a1, a2, q, q', writing || p < q) else Short(bs, a1, a2, q, q', writing || p < q)
    ensures if ok then Taken(bs, a0, a2, p, q', writing) else Short(bs, a0, a2, p, r, writing)
  {
    hide Need;
    NeedSum(bs, p, q, q', writing);
    NeedSum(bs, p, q', r, writing);
  }

  /** The next byte needs a block: none is being written, or it is full. */
  ghost predicate NeedsOne(bs: nat, p: nat, writing: bool) {
    ValidSize(bs) && p < POS_END && (writing ==> p > 0 && LocOf(bs, p - 1).1 + 1 == bs)
  }

  ghost predicate TookOne(bs: nat, avail0: seq<nat>, avail: seq<nat>, p: nat, writing: bool) {
    && (writing ==> p > 0)
    && if NeedsOne(bs, p, writing) then avail0 != [] && avail == avail0[1..] else avail == avail0
  }

  lemma OneTaken(bs: nat, a0: seq<nat>, a: seq<nat>, p: nat, n: nat, writing: bool, i: nat, off: nat)
    requires ValidSize(bs) && n > 0 && p + n < POS_END && TookOne(bs, a0, a, p, writing)
    requires LocOf(bs, p) == (i, off) && off + n <= bs
    ensures Taken(bs, a0, a, p, p + n, writing)
  {
    hide Need;
    NeedFirst(bs, p, n, writing, i, off);
  }

  lemma NoneTaken(bs: nat, a: seq<nat>, p: nat, n: nat, writing: bool)
    requires n > 0 && p + n < POS_END && NeedsOne(bs, p, writing) && a == []
    ensures Short(bs, a, a, p, p + n, writing)
  {
    hide Need;
    NeedSome(bs, p, p + n, writing);
  }

  /** Writing and then flushing. */
  lemma BlocksTaken(bs: nat, a0: seq<nat>, a1: seq<nat>, a2: seq<nat>, size: nat, start: nat, n: nat, wrote: bool,
      ok: bool)
    requires ValidSize(bs) && size < POS_END && start + n < POS_END && (ok ==> wrote)
    requires var from, end := Min(start, size), start + n;
             if wrote then Taken(bs, a0, a1, from, end, false) else Short(bs, a0, a1, from, end, false) && a2 == a1
    requires var end := start + n;
             wrote ==>
               if n == 0 && start <= size then ok && a2 == a1
               else if ok then Taken(bs, a1, a2, end, Max(end, size), true)
               else Short(bs, a1, a2, end, Max(end, size), true)
    ensures var blocks := Blocks(bs, size, start, n);
            && (ok <==> blocks <= |a0|) && (if ok then a2 == a0[blocks..] else a2 == [])
  {
    hide Need;
    BlocksAre(bs, size, start, n);
    NeedNothing(bs, start, false);
  }

  /** The first part of a write: it needs a block exactly if none is being written or that one is
      full, and stays in it. */
  lemma NeedFirst(bs: nat, p: nat, n: nat, writing: bool, i: nat, off: nat)
    requires ValidSize(bs) && n > 0 && p + n < POS_END
    requires LocOf(bs, p) == (i, off) && off + n <= bs
    ensures !writing ==> Need(bs, p, p + n, writing) == 1
    ensures writing && p > 0 ==> Need(bs, p, p + n, writing) == if LocOf(bs, p - 1).1 + 1 < bs then 0 else 1
  {
    LocRun(bs, p, n - 1);
    if p > 0 {
      LocNext(bs, p - 1);
    }
  }

  lemma NeedSome(bs: nat, p: nat, q: nat, writing: bool)
    requires ValidSize(bs) && p < q < POS_END
    requires writing && p > 0 ==> LocOf(bs, p - 1).1 + 1 == bs
    ensures Need(bs, p, q, writing) > 0
  {
    if writing && p > 0 {
      LocNext(bs, p - 1);
      LocMonotone(bs, p, q - 1);
    }
  }

  lemma RoomBounds(disk: Disk, bs: nat, base: seq<nat>, cur: seq<nat>, pos: nat, block: nat, off: nat)
    requires Room(disk, bs, base, cur, pos, block, off)
    ensures Linked(disk, bs, cur) && block in disk && |disk[block]| == bs && off < bs
  {
  }

  lemma RoomLoc(disk: Disk, bs: nat, base: seq<nat>, cur: seq<nat>, pos: nat, block: nat, off: nat)
    requires Room(disk, bs, base, cur, pos, block, off)
    ensures ValidSize(bs) && pos < POS_END && |cur| > 0 && LocOf(bs, pos) == (|cur| - 1, off)
  {
  }

  lemma CurLoc(disk: Disk, bs: nat, base: seq<nat>, cur: seq<nat>, pos: nat, block: nat, off: nat)
    requires CurIs(disk, bs, base, cur, pos, block, off)
    ensures ValidSize(bs) && 0 < pos < POS_END && off > 0 && LocOf(bs, pos - 1).1 == off - 1
  {
  }

  lemma CurBounds(disk: Disk, bs: nat, base: seq<nat>, cur: seq<nat>, pos: nat, block: nat, off: nat)
    requires CurIs(disk, bs, base, cur, pos, block, off)
    ensures Linked(disk, bs, cur) && off <= bs
  {
  }

  // ---------------------------------------------------------------- reading

  /** The reading state of an lfs_file_t. */
  datatype Cursor = Cursor(pos: nat, block: nat, off: nat, reading: bool)

  /** Where a cursor reads next, unless it has to look its block up. */
  ghost predicate CursorOk(bs: nat, base: seq<nat>, size: nat, c: Cursor)
    requires ValidSize(bs) && size < POS_END
  {
    c.reading ==>
      && c.off <= bs
      && (c.off < bs && c.pos < size ==>
            LocOf(bs, c.pos).0 < |base| && c.block == base[LocOf(bs, c.pos).0] && c.off == LocOf(bs, c.pos).1)
  }

  lemma ReadRun(disk: Disk, bs: nat, base: seq<nat>, size: nat, pos: nat, diff: nat)
    requires Linked(disk, bs, base) && Sized(bs, base, size) && pos + diff <= size && LocOf(bs, pos).0 < |base|
    requires LocOf(bs, pos).1 + diff <= bs && diff > 0
    ensures var (i, off) := LocOf(bs, pos);
            && disk[base[i]][off..off + diff] == Content(disk, bs, base, size)[pos..pos + diff]
            && (off + diff < bs && pos + diff < size ==> LocOf(bs, pos + diff) == (i, off + diff))
  {
    var (i, off) := LocOf(bs, pos);
    var run, part := disk[base[i]][off..off + diff], Content(disk, bs, base, size)[pos..pos + diff];
    forall j | 0 <= j < diff
      ensures run[j] == part[j]
    {
      LocRun(bs, pos, j);
      assert ByteAt(disk, bs, base, pos + j) == disk[base[i]][off + j];
    }
    if off + diff < bs && pos + diff < size {
      LocRun(bs, pos, diff);
    }
  }

  /** One round of the loop of lfs_file_flushedread: reads as much as it can in one block. */
  method ReadSome(disk: Disk, bs: nat, head: nat, size: nat, c0: Cursor, n: nat, ghost base: seq<nat>)
    returns (data: seq<Byte>, c: Cursor)
    requires BaseIs(disk, bs, base, head, size) && CursorOk(bs, base, size, c0)
    requires n > 0 && c0.pos + n <= size
    ensures 0 < |data| <= n && c.pos == c0.pos + |data| && CursorOk(bs, base, size, c)
    ensures data == Content(disk, bs, base, size)[c0.pos..c.pos]
  {
    hide Content, Linked, LocOf;
    c := c0;
    // at a block boundary, or not reading yet
    if !c.reading || c.off == bs {
      var block, off, _ := CtzFind(disk, bs, head, size, c.pos, base);
      c := Cursor(c.pos, block, off, true);
      LocInBlock(bs, c.pos);
    }
    // the rest of this block at most
    var diff := if n < bs - c.off then n else bs - c.off;
    LinkedAt(disk, bs, base, LocOf(bs, c.pos).0);
    ReadRun(disk, bs, base, size, c.pos, diff);
    data := disk[c.block][c.off..c.off + diff];
    c := c.(pos := c.pos + diff, off := c.off + diff);
  }

  /** lfs_file_flushedread: reads up to n bytes, as far as the file goes. */
  method FlushedRead(disk: Disk, bs: nat, head: nat, size: nat, c0: Cursor, n: nat, ghost base: seq<nat>)
    returns (data: seq<Byte>, c: Cursor)
    requires BaseIs(disk, bs, base, head, size) && CursorOk(bs, base, size, c0)
    ensures data == if c0.pos >= size then [] else
                    Content(disk, bs, base, size)[c0.pos..if c0.pos + n < size then c0.pos + n else size]
    ensures c.pos == c0.pos + |data| && CursorOk(bs, base, size, c)
  {
    hide Content, Linked, LocOf, CursorOk, Sized;
    BaseSize(disk, bs, base, head, size);
    c, data := c0, [];
    if c.pos >= size {
      // nothing there to read
      return;
    }
    var end := if c0.pos + n < size then c0.pos + n else size;
    ghost var content := Content(disk, bs, base, size);
    while c.pos < end
      invariant c0.pos <= c.pos <= end && CursorOk(bs, base, size, c)
      invariant data == content[c0.pos..c.pos]
    {
      ghost var pos: nat := c.pos;
      var more;
      more, c := ReadSome(disk, bs, head, size, c, end - c.pos, base);
      Adjacent(content, c0.pos, pos, c.pos);
      data := data + more;
    }
  }

  lemma Adjacent(s: seq<Byte>, i: nat, j: nat, k: nat)
    requires i <= j <= k <= |s|
    ensures s[i..j] + s[j..k] == s[i..k]
  {
  }

  lemma LocInBlock(bs: nat, pos: nat)
    requires ValidSize(bs) && pos < POS_END
    ensures LocOf(bs, pos).1 < bs
  {
  }

  lemma LinkedAt(disk: Disk, bs: nat, blocks: seq<nat>, i: nat)
    requires Linked(disk, bs, blocks) && i < |blocks|
    ensures blocks[i] in disk && |disk[blocks[i]]| == bs
  {
  }

  /** The second half of the loop body of lfs_file_flushedwrite: programs as much as we can in the
      current block. */
  method FillBlock(disk0: Disk, bs: nat, ghost head: nat, ghost size: nat, ghost pos: nat, block: nat, off: nat,
      data: seq<Byte>, ghost avail: seq<nat>, ghost base: seq<nat>, ghost cur: seq<nat>)
    returns (disk: Disk, n: nat)
    requires BaseIs(disk0, bs, base, head, size) && Fresh(disk0, bs, avail, base, cur)
    requires Room(disk0, bs, base, cur, pos, block, off) && |data| > 0 && pos + |data| < POS_END
    ensures BaseIs(disk, bs, base, head, size) && Fresh(disk, bs, avail, base, cur) && Kept(disk0, disk, bs, base, size)
    ensures 0 < n <= |data| && CurIs(disk, bs, base, cur, pos + n, block, off + n)
    ensures Linked(disk0, bs, cur) && Linked(disk, bs, cur)
    ensures Written(disk, bs, base, cur, size, pos + n, true) == Content(disk0, bs, cur, pos) + data[..n]
  {
    hide Content, BaseIs, Room, CurIs, Kept, Fresh, Written, Linked;
    RoomBounds(disk0, bs, base, cur, pos, block, off);
    n := if |data| < bs - off then |data| else bs - off;
    disk := ProgBytes(disk0, block, off, data[..n]);
    Filled(disk0, disk, bs, base, cur, head, size, pos, block, off, data[..n], avail);
    CurBounds(disk, bs, base, cur, pos + n, block, off + n);
    WrittenIs(disk, bs, base, cur, size, pos + n);
  }

  class File {
    const bs: nat
    const fileMax: nat
    const append: bool
    // the device, and the blocks its allocator will hand out
    var disk: Disk
    var avail: seq<nat>
    // lfs_file_t: the committed list, and the position and list being written
    var head: nat
    var size: nat
    var pos: nat
    var block: nat
    var off: nat
    var writing: bool
    ghost var base: seq<nat>
    ghost var cur: seq<nat>

    ghost predicate Valid()
      reads this
    {
      && ValidSize(bs) && fileMax < POS_END && pos <= fileMax && size <= fileMax
      && BaseIs(disk, bs, base, head, size)
      && Fresh(disk, bs, avail, base, cur)
      && (writing ==> CurIs(disk, bs, base, cur, pos, block, off))
      && (append && writing ==> pos >= size)
    }

    /** What the committed list reads as. */
    ghost function Old(): seq<Byte>
      reads this
      requires Linked(disk, bs, base)
    {
      Content(disk, bs, base, size)
    }

    /** What the file holds up to the position. */
    ghost function Before(): seq<Byte>
      reads this
      requires Valid() && (!writing ==> pos <= size)
    {
      Written(disk, bs, base, cur, size, pos, writing)
    }

    /** The committed list is untouched. */
    twostate predicate BaseKept()
      reads this
    {
      base == old(base) && head == old(head) && size == old(size) && Kept(old(disk), disk, bs, base, size)
    }

    /** Finds a block for the next byte. */
    method NextBlock() returns (err: Error)
      requires Valid() && pos < fileMax && (!writing ==> pos <= size) && (append ==> pos >= size)
      modifies this
      ensures BaseKept() && pos == old(pos) && err in {None, NoSpace}
      ensures if old(avail) == [] then err == NoSpace && avail == [] else err == None && avail == old(avail)[1..]
      ensures BaseIs(disk, bs, base, head, size)
      ensures err == None ==> writing && Fresh(disk, bs, avail, base, cur)
      ensures err == None ==> Room(disk, bs, base, cur, pos, block, off) && Content(disk, bs, cur, pos) == old(Before())
      ensures err != None ==> Valid() && writing == old(writing) && disk == old(disk) && cur == old(cur)
    {
      hide Content, BaseIs, Room, CurIs, Kept, Fresh, Written, Linked;
      if avail == [] {
        BaseLinked(disk, bs, base, head, size);
        KeptRefl(disk, bs, base, size);
        return NoSpace;
      }
      disk, block, off, cur := ExtendFile(disk, bs, head, size, pos, block, off, writing, avail, base, cur);
      avail := avail[1..];
      writing := true;
      err := None;
    }

    /** Goes on in the block being written while it is not full, and else finds a new one. */
    method HaveRoom() returns (err: Error)
      requires Valid() && pos < fileMax && (!writing ==> pos <= size) && (append ==> pos >= size)
      modifies this
      ensures BaseKept() && pos == old(pos) && err in {None, NoSpace} && BaseIs(disk, bs, base, head, size)
      ensures err == None ==> writing && Fresh(disk, bs, avail, base, cur)
      ensures err == None ==> Room(disk, bs, base, cur, pos, block, off) && Content(disk, bs, cur, pos) == old(Before())
      ensures err == None ==> TookOne(bs, old(avail), avail, pos, old(writing))
      ensures err != None ==> avail == old(avail) == [] && NeedsOne(bs, pos, old(writing))
      ensures err != None ==> Valid() && writing == old(writing) && disk == old(disk) && cur == old(cur)
    {
      hide Content, BaseIs, Room, CurIs, Kept, Fresh, Written, Linked, IsLoc, LocOf, Ptrs;
      BaseLinked(disk, bs, base, head, size);
      if writing {
        CurLoc(disk, bs, base, cur, pos, block, off);
      }
      // at a block boundary, or not writing yet
      if !writing || off == bs {
        err := NextBlock();
      } else {
        CurBounds(disk, bs, base, cur, pos, block, off);
        CurHasRoom(disk, bs, base, cur, pos, block, off);
        KeptRefl(disk, bs, base, size);
        WrittenIs(disk, bs, base, cur, size, pos);
        err := None;
      }
    }

    /** One round of the loop of lfs_file_flushedwrite: programs as much as the block takes. */
    method WriteSome(data: seq<Byte>) returns (err: Error, n: nat)
      requires Valid() && |data| > 0 && pos + |data| <= fileMax && (!writing ==> pos <= size)
      requires append ==> pos >= size
      modifies this
      ensures BaseKept() && err in {None, NoSpace} && Valid()
      ensures err == None ==> writing && 0 < n <= |data| && pos == old(pos) + n && Before() == old(Before()) + data[..n]
      ensures err == None ==> Taken(bs, old(avail), avail, old(pos), pos, old(writing))
      ensures err != None ==> Short(bs, old(avail), avail, old(pos), old(pos) + |data|, old(writing))
      ensures err != None ==> pos == old(pos) && writing == old(writing) && Before() == old(Before())
    {
      hide Content, BaseIs, Room, CurIs, Kept, Fresh, Written, Linked, IsLoc, LocOf, Ptrs, TookOne, NeedsOne, Taken,
           Short;
      ghost var disk0 := disk;
      err := HaveRoom();
      if err != None {
        NoneTaken(bs, avail, pos, |data|, writing);
        return err, 0;
      }
      ghost var disk1 := disk;
      RoomLoc(disk, bs, base, cur, pos, block, off);
      disk, n := FillBlock(disk, bs, head, size, pos, block, off, data, avail, base, cur);
      CurBounds(disk, bs, base, cur, pos + n, block, off + n);
      OneTaken(bs, old(avail), avail, pos, n, old(writing), |cur| - 1, off);
      KeptTransitive(disk0, disk1, disk, bs, base, size);
      pos := pos + n;
      off := off + n;
      err := None;
    }

    /** lfs_file_flushedwrite: writes at the position; when it fails, a part may have been
        written. */
    method FlushedWrite(data: seq<Byte>) returns (err: Error)
      requires Valid() && pos + |data| <= fileMax && (!writing ==> pos <= size) && (append ==> pos >= size)
      modifies this
      ensures BaseKept() && err in {None, NoSpace} && Valid() && (!writing ==> pos <= size)
      ensures old(pos) <= pos <= old(pos) + |data| && Before() == old(Before()) + data[..pos - old(pos)]
      ensures writing == (old(writing) || pos > old(pos))
      ensures err == None ==> pos == old(pos) + |data|
      ensures err == None ==> Taken(bs, old(avail), avail, old(pos), pos, old(writing))
      ensures err != None ==> Short(bs, old(avail), avail, old(pos), old(pos) + |data|, old(writing))
    {
      hide Content, BaseIs, CurIs, Kept, Fresh, Written, Linked, Taken, Short;
      BaseLinked(disk, bs, base, head, size);
      KeptRefl(disk, bs, base, size);
      ghost var disk0, before := disk, Before();
      TakenNone(bs, avail, pos, writing);
      var done := 0;
      while done < |data|
        invariant done <= |data| && pos == old(pos) + done && Valid() && (!writing ==> pos <= size)
        invariant writing == (old(writing) || done > 0) && (append ==> pos >= size)
        invariant base == old(base) && head == old(head) && size == old(size) && Kept(disk0, disk, bs, base, size)
        invariant Before() == before + data[..done]
        invariant Taken(bs, old(avail), avail, old(pos), pos, old(writing))
      {
        ghost var disk1, avail1, end := disk, avail, old(pos) + |data|;
        var n;
        err, n := WriteSome(data[done..]);
        KeptTransitive(disk0, disk1, disk, bs, base, size);
        TakenMore(bs, old(avail), avail1, avail, old(pos), old(pos) + done, if err == None then pos else end, end,
          old(writing), err == None);
        if err != None {
          return;
        }
        assert data[..done] + data[done..][..n] == data[..done + n];
        done := done + n;
      }
      err := None;
    }

    /** The loop of lfs_file_flush: copies what lies behind the position from the old list. */
    method CopyRest() returns (err: Error)
      requires Valid() && writing
      modifies this
      ensures BaseKept() && Valid() && writing && err in {None, NoSpace}
      ensures err == None ==> pos == Max(old(pos), size)
      ensures err == None ==> Before() == old(Before()) + Behind(old(Old()), old(pos))
      ensures if err == None then Taken(bs, old(avail), avail, old(pos), Max(old(pos), size), true)
              else Short(bs, old(avail), avail, old(pos), Max(old(pos), size), true)
    {
      hide Content, BaseIs, CurIs, Kept, Fresh, Written, Linked, Taken, Short, CursorOk;
      BaseLinked(disk, bs, base, head, size);
      KeptRefl(disk, bs, base, size);
      ghost var disk0, content, before := disk, Old(), Before();
      var start := pos;
      var orig := Cursor(pos, 0, 0, false);
      NotReading(disk, bs, base, head, size, orig);
      TakenNone(bs, avail, pos, true);
      while pos < size
        invariant Valid() && Taken(bs, old(avail), avail, start, pos, true)
        invariant writing && start <= pos <= Max(start, size) && orig.pos == pos && CursorOk(bs, base, size, orig)
        invariant base == old(base) && head == old(head) && size == old(size) && Kept(disk0, disk, bs, base, size)
        invariant Before() == before + if start < size then content[start..pos] else []
      {
        // one byte of the old list goes behind what was written
        ghost var disk1, avail1, p := disk, avail, pos;
        KeptReads(disk0, disk, bs, base, size);
        Adjacent(content, start, pos, pos + 1);
        var byte;
        byte, orig := FlushedRead(disk, bs, head, size, orig, 1, base);
        err := FlushedWrite(byte);
        TakenMore(bs, old(avail), avail1, avail, start, p, p + 1, size, true, err == None);
        KeptTransitive(disk0, disk1, disk, bs, base, size);
        if err != None {
          return;
        }
      }
      err := None;
    }

    /** lfs_file_flush: copies what lies behind the position and makes the written list the file's
        list. Nothing the old list consists of was programmed. */
    method Flush() returns (err: Error)
      requires Valid()
      modifies this
      ensures Valid() && err in {None, NoSpace} && Kept(old(disk), disk, bs, old(base), old(size))
      ensures err == None ==> !writing && pos == old(pos)
      ensures err == None && old(writing) ==> Old() == old(Before()) + Behind(old(Old()), old(pos))
      ensures !old(writing) ==> err == None && BaseKept() && disk == old(disk) && avail == old(avail)
      ensures err != None ==> BaseKept()
      ensures old(writing) ==>
                if err == None then Taken(bs, old(avail), avail, old(pos), Max(old(pos), old(size)), true)
                else Short(bs, old(avail), avail, old(pos), Max(old(pos), old(size)), true)
    {
      hide Content, BaseIs, CurIs, Kept, Fresh, Written, Linked, Taken, Short, Behind;
      BaseLinked(disk, bs, base, head, size);
      KeptRefl(disk, bs, base, size);
      if !writing {
        return None;
      }
      var start := pos;
      err := CopyRest();
      if err != None {
        return;
      }
      FlushedBase(disk, bs, base, cur, size, pos, block, off, avail);
      // from here on the new list is the file
      head, size, base, cur := block, pos, cur, [];
      writing := false;
      pos := start;
    }

    /** What a write at a position behind the end fills up first. */
    ghost function Upto(q: nat): seq<Byte>
      reads this
      requires Valid()
    {
      if writing then Written(disk, bs, base, cur, size, pos, true)
      else if q <= size then Old()[..q] else Old() + Zeros(q - size)
    }

    /** Fills the gap between the end of the file and the position with zeros. */
    method FillGap() returns (err: Error)
      requires Valid() && !writing && pos > size
      modifies this
      ensures BaseKept() && err in {None, NoSpace} && Valid() && (!writing ==> pos <= size) && pos >= size
      ensures err == None ==> writing && pos == old(pos) && Before() == old(Old()) + Zeros(pos - size)
      ensures if err == None then Taken(bs, old(avail), avail, size, old(pos), false)
              else Short(bs, old(avail), avail, size, old(pos), false)
    {
      hide Content, BaseIs, CurIs, Kept, Fresh, Written, Linked, Taken, Short, Zeros;
      BaseLinked(disk, bs, base, head, size);
      KeptRefl(disk, bs, base, size);
      UnwrittenIs(disk, bs, base, cur, size, size);
      NoZeros(Old());
      ghost var disk0, content := disk, Old();
      assert content[..size] == content;
      var start := pos;
      pos := size;
      TakenNone(bs, avail, size, false);
      while pos < start
        invariant Valid() && Taken(bs, old(avail), avail, size, pos, false)
        invariant size <= pos <= start && writing == (pos > size)
        invariant base == old(base) && head == old(head) && size == old(size) && Kept(disk0, disk, bs, base, size)
        invariant Before() == content + Zeros(pos - size)
      {
        ghost var disk1, avail1, p := disk, avail, pos;
        OneZero(content, pos - size);
        err := FlushedWrite([0]);
        TakenMore(bs, old(avail), avail1, avail, size, p, p + 1, start, false, err == None);
        KeptTransitive(disk0, disk1, disk, bs, base, size);
        if err != None {
          return;
        }
      }
      err := None;
    }

    /** lfs_file_write_: appends if so opened, refuses to grow beyond the limit, fills a gap with
        zeros, and writes. */
    method Write(data: seq<Byte>) returns (err: Error)
      requires Valid()
      modifies this
      ensures BaseKept() && Valid() && err != Invalid
      ensures var start := if append && old(pos) < size then size else old(pos);
              && (err == TooBig <==> start + |data| > fileMax)
              && (err == TooBig ==> disk == old(disk) && writing == old(writing) && pos == start)
              && (err == None ==>
                    && pos == start + |data|
                    && writing == (old(writing) || pos > size || |data| > 0)
                    && (!writing ==> pos <= size)
                    && Before() == old(Upto(start)) + data)
      ensures var start := if append && old(pos) < size then size else old(pos);
              var from := if old(writing) then start else Min(start, size);
              && (err == None ==> Taken(bs, old(avail), avail, from, start + |data|, old(writing)))
              && (err == NoSpace ==> Short(bs, old(avail), avail, from, start + |data|, old(writing)))
              && (err == TooBig ==> avail == old(avail))
    {
      hide Content, BaseIs, CurIs, Kept, Fresh, Written, Linked, Taken, Short, Zeros;
      BaseLinked(disk, bs, base, head, size);
      KeptRefl(disk, bs, base, size);
      if append && pos < size {
        pos := size;
      }
      if pos + |data| > fileMax {
        // refused before anything changed
        return TooBig;
      }
      ghost var disk0, upto, start := disk, Upto(pos), pos;
      if !writing && pos <= size {
        UnwrittenIs(disk, bs, base, cur, size, pos);
      }
      if !writing && pos > size {
        // the gap behind the end
        TakenNone(bs, avail, size, false);
        err := FillGap();
        TakenMore(bs, old(avail), old(avail), avail, size, size, start, start + |data|, false, err == None);
        if err != None {
          return;
        }
      } else {
        TakenNone(bs, avail, pos, writing);
      }
      ghost var disk1, avail1 := disk, avail;
      ghost var from: nat := if old(writing) then start else Min(start, size);
      assert Before() == upto;
      err := FlushedWrite(data);
      KeptTransitive(disk0, disk1, disk, bs, base, size);
      TakenMore(bs, old(avail), avail1, avail, from, start, start + |data|, start + |data|, old(writing), err == None);
    }

    /** lfs_file_seek_, from the start of the file. */
    method Seek(npos: nat) returns (err: Error)
      requires Valid()
      modifies this
      ensures Valid() && err != TooBig && (err == Invalid <==> npos > fileMax)
      ensures Kept(old(disk), disk, bs, old(base), old(size))
      ensures err == None ==> pos == npos
      ensures !old(writing) ==> err != NoSpace && BaseKept() && disk == old(disk) && !writing
      ensures err == Invalid ==> BaseKept() && disk == old(disk) && writing == old(writing) && pos == old(pos)
      ensures !old(writing) || err == Invalid || npos == old(pos) ==> avail == old(avail)
      ensures old(writing) && npos <= fileMax && npos != old(pos) ==>
                if err == None then Taken(bs, old(avail), avail, old(pos), Max(old(pos), old(size)), true)
                else Short(bs, old(avail), avail, old(pos), Max(old(pos), old(size)), true)
    {
      hide Content, BaseIs, CurIs, Kept, Fresh, Written, Linked;
      BaseLinked(disk, bs, base, head, size);
      KeptRefl(disk, bs, base, size);
      if npos > fileMax {
        return Invalid;
      }
      if pos == npos {
        return None;
      }
      err := Flush();
      if err == None {
        pos := npos;
      }
    }

    /** Writing and flushing. */
    method WriteThrough(data: seq<Byte>) returns (err: Error)
      requires Valid() && !writing
      modifies this
      ensures Kept(old(disk), disk, bs, old(base), old(size)) && err != Invalid
      ensures var start := if append && old(pos) < old(size) then old(size) else old(pos);
              && (err == TooBig <==> start + |data| > fileMax)
              && (err == None ==> Valid() && !writing && Old() == Patched(old(Old()), start, data))
              && (err != TooBig ==>
                    var blocks := Blocks(bs, old(size), start, |data|);
                    && (err == None <==> blocks <= old(|avail|))
                    && avail == if err == None then old(avail)[blocks..] else [])
      ensures err != None ==> Valid() && base == old(base) && head == old(head) && size == old(size)
    {
      hide Content, BaseIs, CurIs, Kept, Fresh, Written, Linked, Taken, Short, Blocks, Patched;
      BaseLinked(disk, bs, base, head, size);
      ghost var disk1, size1, content := disk, size, Old();
      ghost var pos0: nat := if append && pos < size then size else pos;
      err := Write(data);
      if err == NoSpace {
        BlocksTaken(bs, old(avail), avail, avail, size, pos0, |data|, false, false);
      }
      if err != None {
        return;
      }
      ghost var disk2, base2, avail2 := disk, base, avail;
      KeptReads(disk1, disk, bs, base, size);
      PatchedIs(content, pos - |data|, data);
      err := Flush();
      KeptTransitive(disk1, disk2, disk, bs, base2, size1);
      BlocksTaken(bs, old(avail), avail2, avail, size1, pos0, |data|, true, err == None);
    }

    /** Seeking, writing and flushing: the file reads as overwritten, the list it had before still
        reads as it did, and when anything fails the file still is that list. */
    method Overwrite(p: nat, data: seq<Byte>) returns (err: Error)
      requires Valid() && !writing
      modifies this
      ensures Kept(old(disk), disk, bs, old(base), old(size))
      ensures var start := if append && p < old(size) then old(size) else p;
              && (err == Invalid <==> p > fileMax)
              && (err == TooBig <==> p <= fileMax && start + |data| > fileMax)
              && (err == None ==> Valid() && !writing && Old() == Patched(old(Old()), start, data))
              && (err == NoSpace ==> avail == [])
              && (p <= fileMax && start + |data| <= fileMax ==>
                    var blocks := Blocks(bs, old(size), start, |data|);
                    && (err == None <==> blocks <= old(|avail|))
                    && (err == None ==> avail == old(avail)[blocks..]))
      ensures err != None ==> Valid() && base == old(base) && head == old(head) && size == old(size)
    {
      hide Content, BaseIs, CurIs, Kept, Fresh, Written, Linked, Blocks, Patched;
      BaseLinked(disk, bs, base, head, size);
      ghost var disk0 := disk;
      err := Seek(p);
      if err != None {
        return;
      }
      ghost var disk1 := disk;
      err := WriteThrough(data);
      KeptTransitive(disk0, disk1, disk, bs, old(base), old(size));
    }
  }

  lemma PatchedIs(content: seq<Byte>, p: nat, data: seq<Byte>)
    ensures var before := if p <= |content| then content[..p] else content + Zeros(p - |content|);
            Patched(content, p, data) ==
            before + data + if p + |data| < |content| then content[p + |data|..] else []
    ensures data == [] && p <= |content| ==> Patched(content, p, data) == content
  {
  }

  /** What a file holds behind a position. */
  function Behind(content: seq<Byte>, p: nat): seq<Byte> {
    if p < |content| then content[p..] else []
  }

  lemma NotReading(disk: Disk, bs: nat, base: seq<nat>, head: nat, size: nat, c: Cursor)
    requires BaseIs(disk, bs, base, head, size) && !c.reading
    ensures ValidSize(bs) && size < POS_END && CursorOk(bs, base, size, c)
  {
  }

  lemma BaseSize(disk: Disk, bs: nat, base: seq<nat>, head: nat, size: nat)
    requires BaseIs(disk, bs, base, head, size)
    ensures ValidSize(bs) && size < POS_END
  {
  }

  lemma KeptReads(disk0: Disk, disk: Disk, bs: nat, base: seq<nat>, size: nat)
    requires Kept(disk0, disk, bs, base, size)
    ensures Linked(disk0, bs, base) && Linked(disk, bs, base)
    ensures Content(disk, bs, base, size) == Content(disk0, bs, base, size)
  {
  }

  lemma FlushedBase(disk: Disk, bs: nat, base: seq<nat>, cur: seq<nat>, size: nat, pos: nat, block: nat, off: nat,
      avail: seq<nat>)
    requires CurIs(disk, bs, base, cur, pos, block, off) && Fresh(disk, bs, avail, base, cur)
    ensures BaseIs(disk, bs, cur, block, pos) && Fresh(disk, bs, avail, cur, [])
    ensures Written(disk, bs, base, cur, size, pos, true) == Content(disk, bs, cur, pos)
  {
    hide Content;
  }

  lemma UnwrittenIs(disk: Disk, bs: nat, base: seq<nat>, cur: seq<nat>, size: nat, pos: nat)
    requires Linked(disk, bs, base) && pos <= size
    ensures Written(disk, bs, base, cur, size, pos, false) == Content(disk, bs, base, size)[..pos]
  {
  }

  lemma WrittenIs(disk: Disk, bs: nat, base: seq<nat>, cur: seq<nat>, size: nat, pos: nat)
    requires Linked(disk, bs, cur)
    ensures Written(disk, bs, base, cur, size, pos, true) == Content(disk, bs, cur, pos)
  {
  }

  lemma BaseLinked(disk: Disk, bs: nat, base: seq<nat>, head: nat, size: nat)
    requires BaseIs(disk, bs, base, head, size)
    ensures Linked(disk, bs, base)
  {
  }

  /** The list to extend, as a caller of lfs_ctz_extend finds it. */
  ghost predicate Extendable(disk: Disk, bs: nat, base: seq<nat>, src: seq<nat>, pos: nat, nblock: nat) {
    && ValidSize(bs) && Linked(disk, bs, base) && Linked(disk, bs, src) && Sized(bs, src, pos)
    && nblock < WORD && nblock in disk && |disk[nblock]| == bs && nblock !in base && nblock !in src
  }

  lemma ReadyToExtend(disk: Disk, bs: nat, base: seq<nat>, cur: seq<nat>, head: nat, size: nat, pos: nat,
      block: nat, off: nat, writing: bool, avail: seq<nat>)
    requires BaseIs(disk, bs, base, head, size) && Fresh(disk, bs, avail, base, cur) && avail != [] && pos < POS_END
    requires if writing then CurIs(disk, bs, base, cur, pos, block, off) else pos <= size
    ensures var src := Source(bs, base, cur, pos, writing);
            && Extendable(disk, bs, base, src, pos, avail[0])
            && (forall b :: b in src ==> b in base || b in cur)
            && Content(disk, bs, src, pos) == Written(disk, bs, base, cur, size, pos, writing)
    ensures writing ==> |cur| > 0 && block == cur[|cur| - 1] && Source(bs, base, cur, pos, writing) == cur
    ensures !writing && pos > 0 ==>
              var src := Source(bs, base, cur, pos, writing);
              && pos <= size && head == base[|base| - 1] && LocOf(bs, pos - 1).0 < |base|
              && |src| > 0 && src[|src| - 1] == base[LocOf(bs, pos - 1).0]
  {
    hide Content, Linked, LocOf, ValidSize;
    if !writing {
      SourceIs(disk, bs, base, head, size, pos);
      SourceSame(bs, base, cur, pos);
    }
    FreshFirst(disk, bs, avail, base, cur, Source(bs, base, cur, pos, writing));
  }

  lemma ExtendedReady(disk0: Disk, disk: Disk, bs: nat, base: seq<nat>, cur: seq<nat>, src: seq<nat>,
      head: nat, size: nat, pos: nat, avail: seq<nat>, off: nat)
    requires BaseIs(disk0, bs, base, head, size) && Fresh(disk0, bs, avail, base, cur) && avail != []
    requires Extendable(disk0, bs, base, src, pos, avail[0]) && forall b :: b in src ==> b in base || b in cur
    requires IsExtension(disk0, disk, bs, src, pos, avail[0], off)
    ensures var more := Extended(bs, src, pos, avail[0]);
            && Room(disk, bs, base, more, pos, avail[0], off)
            && Content(disk, bs, more, pos) == Content(disk0, bs, src, pos)
            && Fresh(disk, bs, avail[1..], base, more)
            && Kept(disk0, disk, bs, base, size) && BaseIs(disk, bs, base, head, size)
  {
    hide Content, Linked, LocOf, ValidSize, IsExtension, Room, Fresh, OnlyChanged, Kept;
    var more := Extended(bs, src, pos, avail[0]);
    ExtendedRoom(disk0, disk, bs, base, src, pos, avail[0], off);
    ExtensionOnly(disk0, disk, bs, src, pos, avail[0], off);
    FreshTail(disk0, disk, bs, avail, base, cur, more);
    OthersKept(disk0, disk, bs, base, size, avail[0]);
    BaseKeeps(disk0, disk, bs, base, head, size);
  }

  lemma BaseKeeps(disk0: Disk, disk: Disk, bs: nat, base: seq<nat>, head: nat, size: nat)
    requires BaseIs(disk0, bs, base, head, size) && Kept(disk0, disk, bs, base, size)
    ensures BaseIs(disk, bs, base, head, size)
  {
    hide Linked, Content;
  }

  /** The first half of the loop body of lfs_file_flushedwrite: finds the block to extend from and
      extends the file by a fresh block. */
  method ExtendFile(disk0: Disk, bs: nat, head: nat, size: nat, pos: nat, block0: nat, ghost off0: nat, writing: bool,
      avail: seq<nat>, ghost base: seq<nat>, ghost cur: seq<nat>)
    returns (disk: Disk, block: nat, off: nat, ghost more: seq<nat>)
    requires BaseIs(disk0, bs, base, head, size) && Fresh(disk0, bs, avail, base, cur) && avail != [] && pos < POS_END
    requires if writing then CurIs(disk0, bs, base, cur, pos, block0, off0) else pos <= size
    ensures Room(disk, bs, base, more, pos, block, off) && Fresh(disk, bs, avail[1..], base, more)
    ensures Content(disk, bs, more, pos) == Written(disk0, bs, base, cur, size, pos, writing)
    ensures Kept(disk0, disk, bs, base, size) && BaseIs(disk, bs, base, head, size)
  {
    hide Content, Linked, Room, CurIs, Kept, Fresh, IsExtension, OnlyChanged, Written, LocOf, Source, Extended;
    ghost var src := Source(bs, base, cur, pos, writing);
    ReadyToExtend(disk0, bs, base, cur, head, size, pos, block0, off0, writing, avail);
    var from := block0;
    if !writing && pos > 0 {
      // the block of the last byte before the position
      var last, _, _ := CtzFind(disk0, bs, head, size, pos - 1, base);
      from := last;
    }
    var nblock := avail[0];
    disk, block, off := CtzExtend(disk0, bs, from, pos, nblock, src);
    ExtendedReady(disk0, disk, bs, base, cur, src, head, size, pos, avail, off);
    more := Extended(bs, src, pos, nblock);
  }

  lemma KeptRefl(disk: Disk, bs: nat, base: seq<nat>, size: nat)
    requires Linked(disk, bs, base)
    ensures Kept(disk, disk, bs, base, size)
  {
  }

  lemma SourceSame(bs: nat, base: seq<nat>, cur: seq<nat>, pos: nat)
    requires ValidSize(bs) && pos < POS_END
    ensures Source(bs, base, cur, pos, false) == Source(bs, base, [], pos, false)
  {
  }

  lemma FreshFirst(disk: Disk, bs: nat, avail: seq<nat>, base: seq<nat>, cur: seq<nat>, src: seq<nat>)
    requires Fresh(disk, bs, avail, base, cur) && avail != []
    requires src == cur || forall b :: b in src ==> b in base
    ensures avail[0] < WORD && avail[0] in disk && |disk[avail[0]]| == bs && avail[0] !in base && avail[0] !in src
  {
  }

  lemma ExtensionOnly(disk0: Disk, disk: Disk, bs: nat, src: seq<nat>, pos: nat, nblock: nat, off: nat)
    requires Linked(disk0, bs, src) && Sized(bs, src, pos) && IsExtension(disk0, disk, bs, src, pos, nblock, off)
    ensures OnlyChanged(disk0, disk, nblock)
  {
  }
}
