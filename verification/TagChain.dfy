/** The bytes of a metadata log.

    Each tag is stored big-endian and XORed with the tag before it, so a log can be read from
    either end. The end of a commit may also flip the valid bit of the tag that follows. This
    module proves that walking the chain from its end visits the same tags as walking it from its
    start, in reverse. */
module TagChain {

  const VALID: bv32 := 0x8000_0000
  const FIELDS: bv32 := 0x7fff_ffff

  /** A tag word (valid bit clear) with its data, padding included. */
  datatype Cell = Cell(word: bv32, data: seq<bv8>)

  // ---------------------------------------------------------------- words

  function Be32(w: bv32): (r: seq<bv8>)
    ensures |r| == 4
  {
    [(w >> 24) as bv8, ((w >> 16) & 0xff) as bv8, ((w >> 8) & 0xff) as bv8, (w & 0xff) as bv8]
  }

  function FromBe32(s: seq<bv8>): bv32
    requires |s| == 4
  {
    ((s[0] as bv32) << 24) | ((s[1] as bv32) << 16) | ((s[2] as bv32) << 8) | (s[3] as bv32)
  }

  lemma Be32RoundTrip(w: bv32)
    ensures FromBe32(Be32(w)) == w
  {
  }

  /** Big-endian: the first byte is the highest one. */
  lemma BigEndian(s: seq<bv8>)
    requires |s| == 4
    ensures var w := FromBe32(s);
            && w >> 24 == s[0] as bv32 && (w >> 16) & 0xff == s[1] as bv32
            && (w >> 8) & 0xff == s[2] as bv32 && w & 0xff == s[3] as bv32
  {
  }

  function Fields(w: bv32): bv32 {
    w & FIELDS
  }

  function Mark(w: bv32): bv32 {
    w | VALID
  }

  function Xor(a: bv32, b: bv32): bv32 {
    a ^ b
  }

  function Low10(w: bv32): bv32 {
    w & 0x3ff
  }

  /** The size bits, zero when they are all ones. */
  function SizeBits(w: bv32): bv32 {
    Low10(if Low10(w) == 0x3ff then w + 1 else w)
  }

  /** lfs_tag_dsize: the tag itself plus its data; a size of all ones means no data. */
  function DSize(w: bv32): (r: nat)
    ensures r >= 4
  {
    4 + SizeBits(w) as nat
  }

  /** The tag the next one is XORed with: a commit's CRC tag carries, in the lowest type bit,
      whether the next tag's valid bit is flipped. */
  function Next(w: bv32): bv32 {
    if w & 0x7800_0000 == 0x5000_0000 && w & 0x0010_0000 != 0 then w ^ VALID else w
  }

  lemma TypeField(w: bv32)
    ensures (w & 0x7800_0000) >> 20 == 0x500 <==> w & 0x7800_0000 == 0x5000_0000
    ensures (w >> 20) & 1 == 1 <==> w & 0x0010_0000 != 0
  {
  }

  /** Only a CRC tag whose lowest type bit is set flips the valid bit of the tag behind it. */
  lemma NextFlips(w: bv32)
    ensures Next(w) == if (w & 0x7800_0000) >> 20 == 0x500 && (w >> 20) & 1 == 1 then w ^ 0x8000_0000 else w
  {
    TypeField(w);
  }

  lemma NextFields(w: bv32)
    requires w & VALID == 0
    ensures Fields(Next(w)) == w
  {
  }

  lemma SizeBitsAre(w: bv32)
    ensures SizeBits(w) == if Low10(w) == 0x3ff then 0 else Low10(w)
  {
  }

  lemma LowSame(w: bv32)
    ensures Low10(Fields(w)) == Low10(w) && Low10(Mark(w)) == Low10(w)
  {
  }

  lemma DSizeFields(w: bv32)
    ensures DSize(Fields(w)) == DSize(w)
    ensures DSize(Mark(w)) == DSize(w)
    ensures DSize(0xffff_ffff) == 4 && DSize(0x7fff_ffff) == 4
  {
    assert Low10(0xffff_ffff) == 0x3ff && Low10(0x7fff_ffff) == 0x3ff;
    hide SizeBits, Low10, Fields, Mark;
    LowSame(w);
    SizeBitsAre(w);
    SizeBitsAre(Fields(w));
    SizeBitsAre(Mark(w));
    SizeBitsAre(0xffff_ffff);
    SizeBitsAre(0x7fff_ffff);
  }

  lemma FieldsTwice(w: bv32)
    ensures Fields(Fields(w)) == Fields(w)
  {
  }

  lemma Unchain(w: bv32, p: bv32, seen: bv32)
    requires w & VALID == 0 && Fields(p) == Fields(seen)
    ensures Fields(Mark(Xor(Xor(w, p), seen))) == w
  {
  }

  lemma UnchainBack(w: bv32, p: bv32, seen: bv32)
    requires Fields(seen) == w
    ensures Fields(Xor(Xor(w, p), seen)) == Fields(p)
  {
  }

  // ---------------------------------------------------------------- logs

  predicate ValidCell(c: Cell) {
    c.word & VALID == 0 && |c.data| == DSize(c.word) - 4
  }

  predicate ValidCells(cells: seq<Cell>) {
    forall k :: 0 <= k < |cells| ==> ValidCell(cells[k])
  }

  function Ptag(cells: seq<Cell>): bv32 {
    if cells == [] then 0xffff_ffff else Next(cells[|cells| - 1].word)
  }

  /** The bytes after the revision count. */
  function Encode(cells: seq<Cell>): seq<bv8> {
    if cells == [] then [] else
    var front, c := cells[..|cells| - 1], cells[|cells| - 1];
    Encode(front) + Be32(Xor(c.word, Ptag(front))) + c.data
  }

  function WordAt(block: seq<bv8>, off: nat): bv32
    requires off + 4 <= |block|
  {
    FromBe32(block[off..off + 4])
  }

  /** The block holds a revision count and then exactly these cells up to `end`. */
  predicate Holds(block: seq<bv8>, cells: seq<Cell>, end: nat) {
    && ValidCells(cells)
    && end == 4 + |Encode(cells)| <= |block|
    && block[4..end] == Encode(cells)
  }

  lemma SliceOfConcat(s: seq<bv8>, lo: nat, hi: nat, a: seq<bv8>, b: seq<bv8>, c: seq<bv8>)
    requires lo <= hi <= |s| && s[lo..hi] == a + b + c
    ensures lo + |a| + |b| <= hi
    ensures s[lo..lo + |a|] == a
    ensures s[lo + |a|..lo + |a| + |b|] == b
  {
    var t := s[lo..hi];
    assert |t| == |a| + |b| + |c|;
    assert forall i :: 0 <= i < |t| ==> s[lo + i] == t[i];
    assert forall i :: 0 <= i < |a| ==> t[i] == a[i];
    assert forall i :: 0 <= i < |b| ==> t[|a| + i] == b[i];
    assert s[lo..lo + |a|] == a;
    assert s[lo + |a|..lo + |a| + |b|] == t[|a|..|a| + |b|];
  }

  lemma HoldsFront(block: seq<bv8>, cells: seq<Cell>, end: nat)
    requires Holds(block, cells, end) && |cells| > 0
    ensures var front, c := cells[..|cells| - 1], cells[|cells| - 1];
            && ValidCell(c) && end >= 4 + DSize(c.word)
            && Holds(block, front, end - DSize(c.word))
            && WordAt(block, end - DSize(c.word)) == Xor(c.word, Ptag(front))
  {
    hide Be32, FromBe32, DSize, Next, Fields, Mark, Xor;
    var front, c := cells[..|cells| - 1], cells[|cells| - 1];
    assert ValidCell(c);
    SliceOfConcat(block, 4, end, Encode(front), Be32(Xor(c.word, Ptag(front))), c.data);
    Be32RoundTrip(Xor(c.word, Ptag(front)));
  }

  lemma {:induction false} HoldsPrefix(block: seq<bv8>, cells: seq<Cell>, end: nat, k: nat)
    requires Holds(block, cells, end) && k <= |cells|
    ensures Holds(block, cells[..k], 4 + |Encode(cells[..k])|)
    ensures 4 + |Encode(cells[..k])| <= end
    ensures k < |cells| ==> 4 + |Encode(cells[..k])| < end
    decreases |cells|
  {
    if k == |cells| {
      assert cells[..k] == cells;
    } else {
      HoldsFront(block, cells, end);
      var front := cells[..|cells| - 1];
      assert front[..k] == cells[..k];
      HoldsPrefix(block, front, end - DSize(cells[|cells| - 1].word), k);
    }
  }

  /** Where cell `k` starts. */
  function Pos(cells: seq<Cell>, k: nat): nat
    requires k <= |cells|
  {
    4 + |Encode(cells[..k])|
  }

  /** What a block that holds some cells shows at cell `k`. */
  lemma CellAt(block: seq<bv8>, cells: seq<Cell>, end: nat, k: nat)
    requires Holds(block, cells, end) && k < |cells|
    ensures ValidCell(cells[k])
    ensures 4 <= Pos(cells, k) && Pos(cells, k) + DSize(cells[k].word) == Pos(cells, k + 1) <= end
    ensures WordAt(block, Pos(cells, k)) == Xor(cells[k].word, Ptag(cells[..k]))
    ensures Ptag(cells[..k + 1]) == Next(cells[k].word)
    ensures Fields(Next(cells[k].word)) == cells[k].word
    ensures Pos(cells, 0) == 4 && Pos(cells, |cells|) == end
  {
    hide Be32, FromBe32, DSize, Next, Fields, Mark, Xor;
    HoldsPrefix(block, cells, end, k + 1);
    HoldsFront(block, cells[..k + 1], Pos(cells, k + 1));
    assert cells[..k + 1][..k] == cells[..k];
    assert ValidCell(cells[k]);
    NextFields(cells[k].word);
    assert cells[..|cells|] == cells;
  }

  lemma Ends(block: seq<bv8>, cells: seq<Cell>, end: nat)
    requires Holds(block, cells, end)
    ensures Pos(cells, 0) == 4 && Pos(cells, |cells|) == end <= |block| && Ptag(cells[..0]) == 0xffff_ffff
  {
    assert cells[..|cells|] == cells && cells[..0] == [];
  }

  function Words(cells: seq<Cell>): (r: seq<bv32>)
    ensures |r| == |cells|
  {
    seq(|cells|, i requires 0 <= i < |cells| => cells[i].word)
  }

  // ---------------------------------------------------------------- the two walks

  /** How lfs_dir_traverse reads a log: from the start, `ptag` holding the tag read last. */
  method WalkForward(block: seq<bv8>, end: nat, ghost cells: seq<Cell>) returns (tags: seq<bv32>)
    requires Holds(block, cells, end)
    ensures tags == Words(cells)
  {
    hide Be32, FromBe32, DSize, Next, Fields, Mark, Xor, Holds, Encode, Pos, Ptag;
    Ends(block, cells, end);
    tags := [];
    var off: nat, ptag: bv32 := 0, 0xffff_ffff;
    ghost var k := 0;
    DSizeFields(ptag);
    while off + DSize(ptag) < end
      invariant 0 <= k <= |cells|
      invariant off + DSize(ptag) == Pos(cells, k) && (k == |cells| ==> Pos(cells, k) == end)
      invariant Fields(ptag) == Fields(Ptag(cells[..k]))
      invariant tags == Words(cells[..k])
      decreases |cells| - k
    {
      CellAt(block, cells, end, k);
      off := off + DSize(ptag);
      Unchain(cells[k].word, Ptag(cells[..k]), ptag);
      var tag := Mark(Xor(WordAt(block, off), ptag));
      DSizeFields(tag);
      DSizeFields(cells[k].word);
      ptag := tag;
      tags := tags + [Fields(tag)];
      k := k + 1;
    }
    if k < |cells| {
      CellAt(block, cells, end, k);
      assert false;
    }
    assert cells[..k] == cells;
  }

  /** How lfs_dir_getslice reads a log: from its end, starting with the tag that would come
      next (`etag`), until less than a header and one tag are left. */
  method WalkBackward(block: seq<bv8>, end: nat, etag: bv32, ghost cells: seq<Cell>)
    returns (tags: seq<bv32>)
    requires Holds(block, cells, end) && etag == Ptag(cells)
    ensures |tags| == |cells|
    ensures forall i :: 0 <= i < |tags| ==> tags[i] == Words(cells)[|cells| - 1 - i]
  {
    hide Be32, FromBe32, DSize, Next, Fields, Mark, Xor, Holds, Encode, Pos, Ptag;
    Ends(block, cells, end);
    tags := [];
    var off: nat, ntag := end, etag;
    ghost var k := |cells|;
    assert cells[..k] == cells;
    DSizeFields(ntag);
    while off >= 4 + DSize(ntag)
      invariant 0 <= k <= |cells| && off == Pos(cells, k)
      invariant Fields(ntag) == Fields(Ptag(cells[..k])) && DSize(ntag) == DSize(Fields(ntag))
      invariant |tags| == |cells| - k
      invariant forall i :: 0 <= i < |tags| ==> tags[i] == cells[|cells| - 1 - i].word
      decreases k
    {
      if k == 0 {
        assert false;
      }
      CellAt(block, cells, end, k - 1);
      off := off - DSize(ntag);
      var tag := ntag;
      UnchainBack(cells[k - 1].word, Ptag(cells[..k - 1]), tag);
      ntag := Fields(Xor(WordAt(block, off), tag));
      DSizeFields(ntag);
      FieldsTwice(Ptag(cells[..k - 1]));
      tags := tags + [Fields(tag)];
      k := k - 1;
    }
    if k > 0 {
      CellAt(block, cells, end, k - 1);
      assert false;
    }
  }
}
