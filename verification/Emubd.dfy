/** The emulated block device, with copy-on-write blocks.

    Devices are arrays of pointers to reference-counted blocks; copying a device copies pointers,
    and a block is copied when a device that shares it writes. The module keeps an explicit heap
    and proves that every count is the number of pointers, that freeing and writing never touch a
    block somebody else points to, and that devices behave as if each had blocks of its own. */
module Emubd {
  import opened Basics

  datatype BadBlock = ProgError | EraseError | ReadError | ProgNoop | EraseNoop

  /** eraseValue is a byte or -1, eraseCycles is 0 for blocks that never wear out. */
  datatype Config = Config(eraseSize: nat, eraseCount: nat, eraseValue: int, eraseCycles: nat, badblock: BadBlock,
      outOfOrder: bool)

  predicate ValidConfig(c: Config) {
    -1 <= c.eraseValue < 256
  }

  function Fill(c: Config): Byte
    requires ValidConfig(c)
  {
    if c.eraseValue != -1 then c.eraseValue else 0
  }

  function Filled(c: Config): (r: seq<Byte>)
    requires ValidConfig(c)
    ensures |r| == c.eraseSize
  {
    seq<Byte>(c.eraseSize, _ => Fill(c))
  }

  // ---------------------------------------------------------------- the heap

  datatype Ptr = Null | At(ref: nat)

  datatype Block = Block(rc: nat, wear: nat, data: seq<Byte>)

  type Heap = map<nat, Block>

  /** Reference counts are the numbers of pointers, and there are no dangling pointers and no
      garbage. */
  ghost predicate Counts(c: Config, heap: Heap, ptrs: multiset<Ptr>) {
    && (forall r :: r in heap ==> heap[r].rc == ptrs[At(r)] > 0 && |heap[r].data| == c.eraseSize)
    && (forall r :: ptrs[At(r)] > 0 ==> r in heap)
  }

  /** What a block holds, for whoever points to it. A block never written is fresh. */
  datatype Content = Content(wear: nat, data: seq<Byte>)

  function Deref(c: Config, heap: Heap, p: Ptr): Content
    requires ValidConfig(c)
  {
    if p.At? && p.ref in heap then Content(heap[p.ref].wear, heap[p.ref].data) else Content(0, Filled(c))
  }

  ghost predicate SameContents(c: Config, heap: Heap, heap': Heap, ptrs: multiset<Ptr>)
    requires ValidConfig(c)
  {
    forall p :: p in ptrs ==> Deref(c, heap', p) == Deref(c, heap, p)
  }

  lemma {:induction false} FreshRef(s: set<nat>) returns (m: nat)
    ensures forall r :: r in s ==> r < m
    decreases |s|
  {
    if s == {} {
      m := 0;
    } else {
      var x :| x in s;
      m := FreshRef(s - {x});
      assert s == (s - {x}) + {x};
      if m <= x {
        m := x + 1;
      }
    }
  }

  lemma SomeFree(heap: Heap)
    ensures exists r: nat :: r !in heap
  {
    var m := FreshRef(heap.Keys);
    assert m !in heap;
  }

  /** lfs_emubd_incblock: one more pointer. */
  method IncBlock(c: Config, heap: Heap, p: Ptr, ghost ptrs: multiset<Ptr>) returns (heap': Heap)
    requires ValidConfig(c) && Counts(c, heap, ptrs) && (p.At? ==> p in ptrs)
    ensures Counts(c, heap', ptrs + multiset{p}) && SameContents(c, heap, heap', ptrs + multiset{p})
  {
    heap' := if p.At? then heap[p.ref := heap[p.ref].(rc := heap[p.ref].rc + 1)] else heap;
  }

  /** lfs_emubd_decblock: one pointer less; a block nobody points to is freed. */
  method DecBlock(c: Config, heap: Heap, p: Ptr, ghost ptrs: multiset<Ptr>) returns (heap': Heap)
    requires ValidConfig(c) && Counts(c, heap, ptrs + multiset{p})
    ensures Counts(c, heap', ptrs) && SameContents(c, heap, heap', ptrs)
  {
    heap' := heap;
    if p.At? {
      heap' := heap[p.ref := heap[p.ref].(rc := heap[p.ref].rc - 1)];
      if heap'[p.ref].rc == 0 {
        heap' := heap' - {p.ref};
      }
    }
  }

  lemma NewBlock(c: Config, heap: Heap, ptrs: multiset<Ptr>, r: nat, b: Block)
    requires ValidConfig(c) && Counts(c, heap, ptrs) && r !in heap && b.rc == 1 && |b.data| == c.eraseSize
    ensures Counts(c, heap[r := b], ptrs + multiset{At(r)}) && SameContents(c, heap, heap[r := b], ptrs)
    ensures ptrs[At(r)] == 0
  {
    assert ptrs[At(r)] == 0;
  }

  /** lfs_emubd_mutblock: a block that only this pointer points to, with what it held before. */
  method MutBlock(c: Config, heap: Heap, p: Ptr, ghost rest: multiset<Ptr>) returns (heap': Heap, p': Ptr)
    requires ValidConfig(c) && Counts(c, heap, rest + multiset{p})
    ensures Counts(c, heap', rest + multiset{p'}) && SameContents(c, heap, heap', rest)
    ensures p'.At? && p'.ref in heap' && heap'[p'.ref].rc == 1 && rest[p'] == 0
    ensures Deref(c, heap', p') == Deref(c, heap, p)
  {
    assert (rest + multiset{p})[p] == rest[p] + 1;
    if p.At? && heap[p.ref].rc == 1 {
      // nobody else points here
      return heap, p;
    } else if p.At? {
      // shared: the caller moves to a copy of its own
      SomeFree(heap);
      var r: nat :| r !in heap;
      var b := heap[p.ref].(rc := 1);
      NewBlock(c, heap, rest + multiset{p}, r, b);
      assert rest + multiset{p} + multiset{At(r)} == rest + multiset{At(r)} + multiset{p};
      assert At(r) in rest + multiset{At(r)};
      heap' := DecBlock(c, heap[r := b], p, rest + multiset{At(r)});
      p' := At(r);
      SameTwice(c, heap, heap[r := b], heap', rest, rest + multiset{p}, rest + multiset{At(r)});
    } else {
      // never programmed: what it reads as becomes real
      SomeFree(heap);
      var r: nat :| r !in heap;
      NullUncounted(c, heap, rest);
      NewBlock(c, heap, rest, r, Block(1, 0, Filled(c)));
      heap' := heap[r := Block(1, 0, Filled(c))];
      p' := At(r);
    }
  }

  lemma NullUncounted(c: Config, heap: Heap, ptrs: multiset<Ptr>)
    ensures Counts(c, heap, ptrs + multiset{Null}) <==> Counts(c, heap, ptrs)
  {
    forall r: nat
      ensures (ptrs + multiset{Null})[At(r)] == ptrs[At(r)]
    {
    }
  }

  lemma SameTwice(c: Config, h0: Heap, h1: Heap, h2: Heap, ptrs: multiset<Ptr>, more: multiset<Ptr>,
        more': multiset<Ptr>)
    requires ValidConfig(c) && SameContents(c, h0, h1, more) && SameContents(c, h1, h2, more') && ptrs <= more
            && ptrs <= more'
    ensures SameContents(c, h0, h2, ptrs)
  {
    hide Deref;
    forall p | p in ptrs
      ensures p in more && p in more'
    {
    }
  }

  /** Writing to a block that only one pointer points to. */
  method WriteBlock(c: Config, heap: Heap, p: Ptr, content: Content, ghost rest: multiset<Ptr>) returns (heap': Heap)
    requires ValidConfig(c) && Counts(c, heap, rest + multiset{p}) && rest[p] == 0 && p.At?
    requires |content.data| == c.eraseSize
    ensures Counts(c, heap', rest + multiset{p}) && SameContents(c, heap, heap', rest)
    ensures Deref(c, heap', p) == content
  {
    assert (rest + multiset{p})[p] == 1;
    heap' := heap[p.ref := heap[p.ref].(wear := content.wear, data := content.data)];
  }

  // ---------------------------------------------------------------- devices

  datatype Dev = Dev(slots: seq<Ptr>, oooBlock: int, oooData: Ptr, powerCycles: nat)

  function Ptrs(d: Dev): multiset<Ptr> {
    multiset(d.slots) + multiset{d.oooData}
  }

  /** All pointers but one slot's. */
  function RestOf(d: Dev, block: nat): multiset<Ptr>
    requires block < |d.slots|
  {
    multiset(d.slots[..block]) + multiset(d.slots[block + 1..]) + multiset{d.oooData}
  }

  lemma SlotAndRest(d: Dev, block: nat, p: Ptr)
    requires block < |d.slots|
    ensures Ptrs(d) == RestOf(d, block) + multiset{d.slots[block]}
    ensures var d' := d.(slots := d.slots[block := p]); Ptrs(d') == RestOf(d, block) + multiset{p}
    ensures forall i :: 0 <= i < |d.slots| && i != block ==> d.slots[i] in RestOf(d, block)
  {
    assert d.slots == d.slots[..block] + [d.slots[block]] + d.slots[block + 1..];
    assert d.slots[block := p] == d.slots[..block] + [p] + d.slots[block + 1..];
    forall i | 0 <= i < |d.slots| && i != block
      ensures d.slots[i] in RestOf(d, block)
    {
      if i < block {
        assert d.slots[i] in d.slots[..block];
      } else {
        assert d.slots[i] == d.slots[block + 1..][i - block - 1];
        assert d.slots[i] in d.slots[block + 1..];
      }
    }
  }

  /** All pointers, seen from one slot. */
  lemma Regroup(others: multiset<Ptr>, d: Dev, block: nat, p: Ptr)
    requires block < |d.slots|
    ensures others + Ptrs(d) == others + RestOf(d, block) + multiset{d.slots[block]}
    ensures var d' := d.(slots := d.slots[block := p]);
            others + Ptrs(d') == others + RestOf(d, block) + multiset{p} && RestOf(d', block) == RestOf(d, block)
  {
    hide Ptrs;
    SlotAndRest(d, block, p);
  }

  /** A device with blocks of its own. */
  datatype Deep = Deep(blocks: seq<Content>, oooBlock: int, oooData: Content, powerCycles: nat)

  function DeepOf(c: Config, heap: Heap, d: Dev): Deep
    requires ValidConfig(c)
  {
    Deep(seq(|d.slots|, i requires 0 <= i < |d.slots| => Deref(c, heap, d.slots[i])), d.oooBlock,
        Deref(c, heap, d.oooData), d.powerCycles)
  }

  lemma SameDeep(c: Config, heap: Heap, heap': Heap, d: Dev, ptrs: multiset<Ptr>)
    requires ValidConfig(c) && SameContents(c, heap, heap', ptrs) && Ptrs(d) <= ptrs
    ensures DeepOf(c, heap', d) == DeepOf(c, heap, d)
  {
    hide Deref;
    assert d.oooData in Ptrs(d);
    forall i | 0 <= i < |d.slots|
      ensures d.slots[i] in ptrs
    {
      assert d.slots[i] in d.slots;
      assert d.slots[i] in Ptrs(d);
    }
  }

  ghost predicate DevOk(c: Config, d: Dev) {
    |d.slots| == c.eraseCount && -1 <= d.oooBlock < c.eraseCount && (d.oooBlock == -1 ==> d.oooData == Null)
  }

  /** Makes a device's block its own, as prog, erase and setwear begin. Nobody sees a difference. */
  method OwnSlot(c: Config, heap: Heap, d: Dev, block: nat, ghost others: multiset<Ptr>) returns (heap': Heap, d': Dev)
    requires ValidConfig(c) && block < |d.slots| && Counts(c, heap, others + Ptrs(d))
    ensures Counts(c, heap', others + Ptrs(d')) && SameContents(c, heap, heap', others)
    ensures |d'.slots| == |d.slots| && d' == d.(slots := d.slots[block := d'.slots[block]])
    ensures DeepOf(c, heap', d') == DeepOf(c, heap, d)
    ensures d'.slots[block].At? && (others + RestOf(d', block))[d'.slots[block]] == 0
  {
    hide Counts, SameContents, Deref, Ptrs, RestOf;
    ghost var rest := others + RestOf(d, block);
    var p;
    Regroup(others, d, block, Null);
    heap', p := MutBlock(c, heap, d.slots[block], rest);
    d' := d.(slots := d.slots[block := p]);
    Regroup(others, d, block, p);
    SameParts(c, heap, heap', others, RestOf(d, block));
    SlotDeep(c, heap, heap', d, block, p);
    ReplacedBlock(c, heap, d, block);
  }

  lemma ReplacedBlock(c: Config, heap: Heap, d: Dev, block: nat)
    requires ValidConfig(c) && block < |d.slots|
    ensures var x := DeepOf(c, heap, d);
            |x.blocks| == |d.slots| && x.(blocks := x.blocks[block := Deref(c, heap, d.slots[block])]) == x
  {
    hide Deref;
  }

  lemma SameParts(c: Config, heap: Heap, heap': Heap, a: multiset<Ptr>, b: multiset<Ptr>)
    requires ValidConfig(c) && SameContents(c, heap, heap', a + b)
    ensures SameContents(c, heap, heap', a) && SameContents(c, heap, heap', b)
  {
    hide Deref;
    forall p | p in a || p in b
      ensures Deref(c, heap', p) == Deref(c, heap, p)
    {
      assert p in a + b;
    }
  }

  lemma SlotDeep(c: Config, heap: Heap, heap': Heap, d: Dev, block: nat, p: Ptr)
    requires ValidConfig(c) && block < |d.slots| && SameContents(c, heap, heap', RestOf(d, block))
    ensures var x := DeepOf(c, heap, d);
            DeepOf(c, heap', d.(slots := d.slots[block := p])) == x.(blocks := x.blocks[block := Deref(c, heap', p)])
  {
    hide Deref, RestOf, Ptrs;
    SlotAndRest(d, block, p);
    OooInRest(d, block);
    var after := DeepOf(c, heap', d.(slots := d.slots[block := p]));
    var expected := DeepOf(c, heap, d).blocks[block := Deref(c, heap', p)];
    forall i | 0 <= i < |d.slots|
      ensures after.blocks[i] == expected[i]
    {
    }
    assert after.blocks == expected;
  }

  lemma OooInRest(d: Dev, block: nat)
    requires block < |d.slots|
    ensures d.oooData in RestOf(d, block)
  {
  }

  /** Writes to a block the device owns. */
  method WriteSlot(c: Config, heap: Heap, d: Dev, block: nat, content: Content, ghost others: multiset<Ptr>)
        returns (heap': Heap)
    requires ValidConfig(c) && block < |d.slots| && Counts(c, heap, others + Ptrs(d)) && |content.data| == c.eraseSize
    requires d.slots[block].At? && (others + RestOf(d, block))[d.slots[block]] == 0
    ensures Counts(c, heap', others + Ptrs(d)) && SameContents(c, heap, heap', others)
    ensures var x := DeepOf(c, heap, d); DeepOf(c, heap', d) == x.(blocks := x.blocks[block := content])
  {
    hide Counts, SameContents, Deref, Ptrs, RestOf;
    ghost var rest := others + RestOf(d, block);
    Regroup(others, d, block, d.slots[block]);
    heap' := WriteBlock(c, heap, d.slots[block], content, rest);
    SameParts(c, heap, heap', others, RestOf(d, block));
    SlotDeep(c, heap, heap', d, block, d.slots[block]);
    assert d.slots[block := d.slots[block]] == d.slots;
  }

  // ---------------------------------------------------------------- what the operations do to a device of its own

  datatype Error = None | Corrupt

  /** What the power-loss callback gets to see, if it is called. */
  datatype Loss = NoLoss | Loss(seen: Deep)

  predicate Worn(c: Config, b: Content) {
    c.eraseCycles > 0 && b.wear >= c.eraseCycles
  }

  /** Out-of-order writes: the first block erased since the last sync is as it was. */
  function OutOfOrder(c: Config, x: Deep): Deep {
    if c.outOfOrder && 0 <= x.oooBlock < |x.blocks| then x.(blocks := x.blocks[x.oooBlock := x.oooData]) else x
  }

  /** Every program and erase counts down to the power loss. */
  function Countdown(c: Config, x: Deep): (Deep, Loss) {
    if x.powerCycles == 0 then (x, NoLoss)
    else
      var y := x.(powerCycles := x.powerCycles - 1);
      (y, if y.powerCycles == 0 then Loss(OutOfOrder(c, y)) else NoLoss)
  }

  function Patch(s: seq<Byte>, off: nat, data: seq<Byte>): (r: seq<Byte>)
    requires off + |data| <= |s|
    ensures |r| == |s|
  {
    s[..off] + data + s[off + |data|..]
  }

  predicate ProgIgnored(c: Config, b: Content) {
    Worn(c, b) && c.badblock in {ProgError, ProgNoop, EraseNoop}
  }

  function DeepProg(c: Config, x: Deep, block: nat, off: nat, data: seq<Byte>): (Error, Deep, Loss)
    requires block < |x.blocks| && off + |data| <= |x.blocks[block].data|
  {
    var b := x.blocks[block];
    if ProgIgnored(c, b) then (if c.badblock == ProgError then Corrupt else None, x, NoLoss)
    else
      var (y, loss) := Countdown(c, x.(blocks := x.blocks[block := Content(b.wear, Patch(b.data, off, data))]));
      (None, y, loss)
  }

  function Saved(c: Config, x: Deep, block: nat): Deep
    requires block < |x.blocks|
  {
    if c.outOfOrder && x.oooBlock == -1 then x.(oooBlock := block, oooData := x.blocks[block]) else x
  }

  function Erased(c: Config, b: Content): Content
    requires ValidConfig(c)
  {
    Content(if c.eraseCycles > 0 && !Worn(c, b) then b.wear + 1 else b.wear, if c.eraseValue != -1 then Filled(c)
        else b.data)
  }

  function DeepErase(c: Config, x0: Deep, block: nat): (Error, Deep, Loss)
    requires ValidConfig(c) && block < |x0.blocks|
  {
    var x, b := Saved(c, x0, block), x0.blocks[block];
    if Worn(c, b) && c.badblock == EraseError then (Corrupt, x, NoLoss)
    else if Worn(c, b) && c.badblock == EraseNoop then (None, x, NoLoss)
    else var (y, loss) := Countdown(c, x.(blocks := x.blocks[block := Erased(c, b)])); (None, y, loss)
  }

  /** What a block that is worn out is, by its configuration. */
  predicate IsWorn(c: Config, x: Deep, block: nat)
    requires block < |x.blocks|
  {
    0 < c.eraseCycles <= x.blocks[block].wear
  }

  /** Nothing of a device changed but one block's contents and the countdown to a power loss. */
  ghost predicate OnlyBlock(c: Config, x: Deep, y: Deep, block: nat, counts: bool, loss: Loss) {
    && |y.blocks| == |x.blocks| && (forall i :: 0 <= i < |x.blocks| && i != block ==> y.blocks[i] == x.blocks[i])
    && y.powerCycles == (if counts && x.powerCycles > 0 then x.powerCycles - 1 else x.powerCycles)
    && (loss.Loss? <==> counts && x.powerCycles == 1)
    && (loss.Loss? ==>
          && loss.seen.powerCycles == 0 && |loss.seen.blocks| == |y.blocks|
          && forall i :: 0 <= i < |y.blocks| ==>
               loss.seen.blocks[i] == if c.outOfOrder && i == y.oooBlock then y.oooData else y.blocks[i])
  }

  /** Programming, byte by byte: it fails on a worn block if programs report errors, leaves it alone
      if bad blocks ignore programs or erases, and otherwise puts the data in its place. */
  lemma ProgIs(c: Config, x: Deep, block: nat, off: nat, data: seq<Byte>)
    requires block < |x.blocks| && off + |data| <= |x.blocks[block].data|
    ensures var (err, y, loss) := DeepProg(c, x, block, off, data);
            var done := !(IsWorn(c, x, block) && c.badblock in {ProgError, ProgNoop, EraseNoop});
            && (err == Corrupt <==> IsWorn(c, x, block) && c.badblock == ProgError)
            && OnlyBlock(c, x, y, block, done, loss) && y.oooBlock == x.oooBlock && y.oooData == x.oooData
            && y.blocks[block].wear == x.blocks[block].wear && |y.blocks[block].data| == |x.blocks[block].data|
            && forall i :: 0 <= i < |x.blocks[block].data| ==>
                 y.blocks[block].data[i] ==
                 if done && off <= i < off + |data| then data[i - off] else x.blocks[block].data[i]
  {
  }

  /** Erasing: it fails on a worn block if erases report errors, and leaves it alone if they are
      ignored; a block that is not worn out yet wears by one; its bytes become the erase value, if
      there is one. The first block erased since a sync is remembered for out-of-order writes. */
  lemma EraseIs(c: Config, x: Deep, block: nat)
    requires ValidConfig(c) && block < |x.blocks| && |x.blocks[block].data| == c.eraseSize
    ensures var (err, y, loss) := DeepErase(c, x, block);
            var worn := IsWorn(c, x, block);
            var done := !(worn && c.badblock in {EraseError, EraseNoop});
            && (err == Corrupt <==> worn && c.badblock == EraseError)
            && OnlyBlock(c, x, y, block, done, loss)
            && (y.oooBlock, y.oooData) ==
               (if c.outOfOrder && x.oooBlock == -1 then (block, x.blocks[block]) else (x.oooBlock, x.oooData))
            && y.blocks[block].wear == x.blocks[block].wear + (if c.eraseCycles > 0 && !worn then 1 else 0)
            && |y.blocks[block].data| == c.eraseSize
            && forall i :: 0 <= i < c.eraseSize ==>
                 y.blocks[block].data[i] == if done && c.eraseValue != -1 then c.eraseValue else x.blocks[block].data[i]
  {
  }

  /** A block never written reads as the erase value, or as zeros. */
  lemma FilledIs(c: Config, i: nat)
    requires ValidConfig(c) && i < c.eraseSize
    ensures Filled(c)[i] == if c.eraseValue == -1 then 0 else c.eraseValue
  {
  }

  // ---------------------------------------------------------------- one device among others

  /** lfs_emubd_powerloss: shows the callback what out-of-order writes leave, and undoes it. */
  method PowerLoss(c: Config, heap: Heap, d: Dev, ghost others: multiset<Ptr>) returns (heap': Heap, seen: Deep)
    requires ValidConfig(c) && Counts(c, heap, others + Ptrs(d)) && DevOk(c, d)
    ensures Counts(c, heap', others + Ptrs(d)) && SameContents(c, heap, heap', others)
    ensures DeepOf(c, heap', d) == DeepOf(c, heap, d) && seen == OutOfOrder(c, DeepOf(c, heap, d))
  {
    hide Counts, SameContents, Deref;
    heap' := heap;
    if !(c.outOfOrder && d.oooBlock != -1) {
      seen := DeepOf(c, heap, d);
      SameRefl(c, heap, others);
      return;
    }
    var i: nat := d.oooBlock;
    var saved := d.slots[i];
    ghost var all := others + Ptrs(d);
    assert d.oooData in Ptrs(d);
    heap' := IncBlock(c, heap, d.oooData, all);
    var shown := d.(slots := d.slots[i := d.oooData]);
    SameParts(c, heap, heap', all, multiset{d.oooData});
    SameParts(c, heap, heap', others, Ptrs(d));
    SameDeep(c, heap, heap', d, Ptrs(d));
    SlotAndRest(d, i, d.oooData);
    PutDeep(c, heap', d, i, d.oooData);
    seen := DeepOf(c, heap', shown);
    // the callback got to see shown; whoever continues sees the device as it was
    assert shown.(slots := shown.slots[i := saved]).slots == d.slots;
    ghost var mid := heap';
    heap' := DecBlock(c, heap', shown.slots[i], all);
    SameParts(c, mid, heap', others, Ptrs(d));
    SameDeep(c, mid, heap', d, Ptrs(d));
    SameTwice(c, heap, mid, heap', others, others, others);
  }

  lemma SameRefl(c: Config, heap: Heap, ptrs: multiset<Ptr>)
    requires ValidConfig(c)
    ensures SameContents(c, heap, heap, ptrs)
  {
  }

  lemma PutDeep(c: Config, heap: Heap, d: Dev, i: nat, p: Ptr)
    requires ValidConfig(c) && i < |d.slots|
    ensures var x := DeepOf(c, heap, d);
            DeepOf(c, heap, d.(slots := d.slots[i := p])) == x.(blocks := x.blocks[i := Deref(c, heap, p)])
  {
    hide Deref;
    SameRefl(c, heap, RestOf(d, i));
    SlotDeep(c, heap, heap, d, i, p);
  }

  /** The end of prog and erase: counting down to the power loss. */
  method CountDown(c: Config, heap: Heap, d: Dev, ghost others: multiset<Ptr>)
        returns (heap': Heap, d': Dev, loss: Loss)
    requires ValidConfig(c) && Counts(c, heap, others + Ptrs(d)) && DevOk(c, d)
    ensures Counts(c, heap', others + Ptrs(d')) && DevOk(c, d') && SameContents(c, heap, heap', others)
    ensures (DeepOf(c, heap', d'), loss) == Countdown(c, DeepOf(c, heap, d))
  {
    hide Counts, SameContents, Deref, Ptrs;
    heap', d', loss := heap, d, NoLoss;
    SameRefl(c, heap, others);
    if d.powerCycles > 0 {
      d' := d.(powerCycles := d.powerCycles - 1);
      SamePtrs(d, d');
      if d'.powerCycles == 0 {
        var seen;
        heap', seen := PowerLoss(c, heap, d', others);
        loss := Loss(seen);
      }
    }
  }

  lemma SamePtrs(d: Dev, d': Dev)
    requires d'.slots == d.slots && d'.oooData == d.oooData
    ensures Ptrs(d') == Ptrs(d)
  {
  }

  lemma DeepSizes(c: Config, heap: Heap, d: Dev, others: multiset<Ptr>)
    requires ValidConfig(c) && Counts(c, heap, others + Ptrs(d))
    ensures forall i :: 0 <= i < |d.slots| ==> |DeepOf(c, heap, d).blocks[i].data| == c.eraseSize
  {
    forall i | 0 <= i < |d.slots| && d.slots[i].At?
      ensures d.slots[i].ref in heap
    {
      assert d.slots[i] in d.slots;
      assert d.slots[i] in Ptrs(d) && d.slots[i] in others + Ptrs(d);
    }
  }

  /** lfs_emubd_prog, on one of several devices. */
  method DevProg(c: Config, heap: Heap, d: Dev, block: nat, off: nat, data: seq<Byte>, ghost others: multiset<Ptr>)
    returns (err: Error, heap': Heap, d': Dev, loss: Loss)
    requires ValidConfig(c) && Counts(c, heap, others + Ptrs(d)) && DevOk(c, d)
    requires block < c.eraseCount && off + |data| <= c.eraseSize
    ensures Counts(c, heap', others + Ptrs(d')) && DevOk(c, d') && SameContents(c, heap, heap', others)
    ensures |DeepOf(c, heap, d).blocks[block].data| == c.eraseSize
    ensures (err, DeepOf(c, heap', d'), loss) == DeepProg(c, DeepOf(c, heap, d), block, off, data)
  {
    hide Counts, SameContents, Deref, Ptrs, RestOf, Countdown, Patch;
    DeepSizes(c, heap, d, others);
    heap', d' := OwnSlot(c, heap, d, block, others);
    var b := Deref(c, heap', d'.slots[block]);
    assert b == DeepOf(c, heap', d').blocks[block];
    // worn out
    if ProgIgnored(c, b) {
      return if c.badblock == ProgError then Corrupt else None, heap', d', NoLoss;
    }
    // the block is this device's own by now
    ghost var h1 := heap';
    heap' := WriteSlot(c, heap', d', block, Content(b.wear, Patch(b.data, off, data)), others);
    SameTwice(c, heap, h1, heap', others, others, others);
    ghost var h2 := heap';
    heap', d', loss := CountDown(c, heap', d', others);
    SameTwice(c, heap, h2, heap', others, others, others);
    err := None;
  }

  /** The start of erase: keeps the first block written since the last sync. */
  method SaveFirst(c: Config, heap: Heap, d: Dev, block: nat, ghost others: multiset<Ptr>)
        returns (heap': Heap, d': Dev)
    requires ValidConfig(c) && Counts(c, heap, others + Ptrs(d)) && DevOk(c, d) && block < c.eraseCount
    ensures Counts(c, heap', others + Ptrs(d')) && DevOk(c, d') && SameContents(c, heap, heap', others)
    ensures DeepOf(c, heap', d') == Saved(c, DeepOf(c, heap, d), block)
  {
    hide SameContents, Deref, Counts;
    heap', d' := heap, d;
    SameRefl(c, heap, others);
    if c.outOfOrder && d.oooBlock == -1 {
      SlotAndRest(d, block, d.slots[block]);
      ghost var all := others + Ptrs(d);
      assert d.slots[block] in all;
      heap' := IncBlock(c, heap, d.slots[block], all);
      d' := d.(oooBlock := block, oooData := d.slots[block]);
      assert all + multiset{d.slots[block]} == others + Ptrs(d') + multiset{Null};
      NullUncounted(c, heap', others + Ptrs(d'));
      SameParts(c, heap, heap', all, multiset{d.slots[block]});
      SameParts(c, heap, heap', others, Ptrs(d));
      SameDeep(c, heap, heap', d, Ptrs(d));
      assert Deref(c, heap', d.slots[block]) == DeepOf(c, heap', d).blocks[block];
    }
  }

  /** lfs_emubd_erase, on one of several devices. */
  method DevErase(c: Config, heap: Heap, d: Dev, block: nat, ghost others: multiset<Ptr>)
    returns (err: Error, heap': Heap, d': Dev, loss: Loss)
    requires ValidConfig(c) && Counts(c, heap, others + Ptrs(d)) && DevOk(c, d) && block < c.eraseCount
    ensures Counts(c, heap', others + Ptrs(d')) && DevOk(c, d') && SameContents(c, heap, heap', others)
    ensures (err, DeepOf(c, heap', d'), loss) == DeepErase(c, DeepOf(c, heap, d), block)
  {
    hide Counts, SameContents, Deref, Ptrs, RestOf, Countdown, Saved, Erased;
    SavedBlocks(c, DeepOf(c, heap, d), block);
    heap', d' := SaveFirst(c, heap, d, block, others);
    ghost var h0 := heap';
    DeepSizes(c, heap', d', others);
    heap', d' := OwnSlot(c, heap', d', block, others);
    SameTwice(c, heap, h0, heap', others, others, others);
    var b := Deref(c, heap', d'.slots[block]);
    assert b == DeepOf(c, heap', d').blocks[block];
    // worn out
    if Worn(c, b) && c.badblock in {EraseError, EraseNoop} {
      return if c.badblock == EraseError then Corrupt else None, heap', d', NoLoss;
    }
    ghost var h1 := heap';
    ErasedSize(c, b);
    heap' := WriteSlot(c, heap', d', block, Erased(c, b), others);
    SameTwice(c, heap, h1, heap', others, others, others);
    ghost var h2 := heap';
    heap', d', loss := CountDown(c, heap', d', others);
    SameTwice(c, heap, h2, heap', others, others, others);
    err := None;
  }

  lemma SavedBlocks(c: Config, x: Deep, block: nat)
    requires block < |x.blocks|
    ensures Saved(c, x, block).blocks == x.blocks
  {
  }

  lemma ErasedSize(c: Config, b: Content)
    requires ValidConfig(c) && |b.data| == c.eraseSize
    ensures |Erased(c, b).data| == c.eraseSize
  {
  }

  // ---------------------------------------------------------------- several devices

  function AllPtrs(devs: seq<Dev>): multiset<Ptr> {
    if devs == [] then multiset{} else Ptrs(devs[0]) + AllPtrs(devs[1..])
  }

  lemma {:induction false} AllPtrsConcat(a: seq<Dev>, b: seq<Dev>)
    ensures AllPtrs(a + b) == AllPtrs(a) + AllPtrs(b)
  {
    if a == [] {
      assert a + b == b;
    } else {
      assert (a + b)[1..] == a[1..] + b;
      AllPtrsConcat(a[1..], b);
    }
  }

  function OthersOf(devs: seq<Dev>, d: nat): multiset<Ptr>
    requires d < |devs|
  {
    AllPtrs(devs[..d]) + AllPtrs(devs[d + 1..])
  }

  lemma DevAndOthers(devs: seq<Dev>, d: nat, x: Dev)
    requires d < |devs|
    ensures AllPtrs(devs) == OthersOf(devs, d) + Ptrs(devs[d])
    ensures AllPtrs(devs[d := x]) == OthersOf(devs, d) + Ptrs(x)
    ensures AllPtrs(devs[..d] + devs[d + 1..]) == OthersOf(devs, d)
  {
    hide Ptrs;
    AllPtrsConcat(devs[..d], devs[d + 1..]);
    assert devs == devs[..d] + ([devs[d]] + devs[d + 1..]) && devs[d := x] == devs[..d] + ([x] + devs[d + 1..]);
    AllPtrsConcat(devs[..d], [devs[d]] + devs[d + 1..]);
    AllPtrsConcat(devs[..d], [x] + devs[d + 1..]);
    assert ([devs[d]] + devs[d + 1..])[1..] == devs[d + 1..] && ([x] + devs[d + 1..])[1..] == devs[d + 1..];
  }

  lemma {:induction false} SomeDev(devs: seq<Dev>, i: nat)
    requires i < |devs|
    ensures Ptrs(devs[i]) <= AllPtrs(devs)
    decreases |devs|
  {
    hide Ptrs;
    if i > 0 {
      SomeDev(devs[1..], i - 1);
    }
  }

  lemma OtherDev(devs: seq<Dev>, d: nat, i: nat)
    requires d < |devs| && i < |devs| && i != d
    ensures Ptrs(devs[i]) <= OthersOf(devs, d)
  {
    hide Ptrs;
    if i < d {
      SomeDev(devs[..d], i);
    } else {
      SomeDev(devs[d + 1..], i - d - 1);
    }
  }

  /** All devices, each with blocks of its own. */
  function DeepOfAll(c: Config, heap: Heap, devs: seq<Dev>): seq<Deep>
    requires ValidConfig(c)
  {
    seq(|devs|, i requires 0 <= i < |devs| => DeepOf(c, heap, devs[i]))
  }

  /** Whoever keeps the contents of all other pointers leaves the other devices alone. */
  lemma OthersKeep(c: Config, heap: Heap, heap': Heap, devs: seq<Dev>, d: nat, x: Dev)
    requires ValidConfig(c) && d < |devs| && SameContents(c, heap, heap', OthersOf(devs, d))
    ensures DeepOfAll(c, heap', devs[d := x]) == DeepOfAll(c, heap, devs)[d := DeepOf(c, heap', x)]
    ensures DeepOfAll(c, heap', devs[..d] + devs[d + 1..]) ==
            DeepOfAll(c, heap, devs)[..d] + DeepOfAll(c, heap, devs)[d + 1..]
  {
    hide DeepOf, Ptrs, OthersOf, SameContents;
    forall i | 0 <= i < |devs| && i != d
      ensures DeepOf(c, heap', devs[i]) == DeepOf(c, heap, devs[i])
    {
      OtherDev(devs, d, i);
      SameDeep(c, heap, heap', devs[i], OthersOf(devs, d));
    }
  }

  /** Drops all pointers of a slot array, as destroying a device does. */
  method DecAll(c: Config, heap0: Heap, slots: seq<Ptr>, ghost others: multiset<Ptr>) returns (heap: Heap)
    requires ValidConfig(c) && Counts(c, heap0, others + multiset(slots))
    ensures Counts(c, heap, others) && SameContents(c, heap0, heap, others)
  {
    hide Counts, SameContents;
    heap := heap0;
    SameRefl(c, heap0, others);
    assert slots[0..] == slots;
    for i := 0 to |slots|
      invariant Counts(c, heap, others + multiset(slots[i..])) && SameContents(c, heap0, heap, others)
    {
      assert slots[i..] == [slots[i]] + slots[i + 1..];
      ghost var left := others + multiset(slots[i + 1..]);
      assert others + multiset(slots[i..]) == left + multiset{slots[i]};
      ghost var before := heap;
      heap := DecBlock(c, heap, slots[i], left);
      SameParts(c, before, heap, others, multiset(slots[i + 1..]));
      SameTwice(c, heap0, before, heap, others, others, others);
    }
    assert others + multiset(slots[|slots|..]) == others;
  }

  /** Takes another pointer to every block, as copying a device does. */
  method IncAll(c: Config, heap0: Heap, slots: seq<Ptr>, ghost ptrs: multiset<Ptr>) returns (heap: Heap)
    requires ValidConfig(c) && Counts(c, heap0, ptrs) && forall p :: p in slots ==> p in ptrs
    ensures Counts(c, heap, ptrs + multiset(slots)) && SameContents(c, heap0, heap, ptrs + multiset(slots))
  {
    hide Counts, SameContents;
    heap := heap0;
    SameRefl(c, heap0, ptrs + multiset(slots));
    assert ptrs + multiset(slots[..0]) == ptrs;
    for i := 0 to |slots|
      invariant Counts(c, heap, ptrs + multiset(slots[..i])) && SameContents(c, heap0, heap, ptrs + multiset(slots))
    {
      assert slots[..i + 1] == slots[..i] + [slots[i]];
      ghost var all := ptrs + multiset(slots[..i]);
      assert slots[i] in slots && slots[i] in all;
      ghost var before := heap;
      heap := IncBlock(c, heap, slots[i], all);
      assert all + multiset{slots[i]} == ptrs + multiset(slots[..i + 1]);
      AllSame(c, before, heap, ptrs, slots, all + multiset{slots[i]});
      SameTwice(c, heap0, before, heap, ptrs + multiset(slots), ptrs + multiset(slots), ptrs + multiset(slots));
    }
    assert slots[..|slots|] == slots;
  }

  lemma AllSame(c: Config, heap: Heap, heap': Heap, ptrs: multiset<Ptr>, slots: seq<Ptr>, all: multiset<Ptr>)
    requires ValidConfig(c) && SameContents(c, heap, heap', all) && ptrs <= all && forall p :: p in slots ==> p in ptrs
    ensures SameContents(c, heap, heap', ptrs + multiset(slots))
  {
    hide Deref;
    forall p | p in ptrs + multiset(slots)
      ensures p in all
    {
      assert p in ptrs || p in slots;
    }
  }

  function FreshDev(c: Config, powerCycles: nat): Dev {
    Dev(seq(c.eraseCount, _ => Null), -1, Null, powerCycles)
  }

  function FreshDeep(c: Config, powerCycles: nat): Deep
    requires ValidConfig(c)
  {
    Deep(seq(c.eraseCount, _ => Content(0, Filled(c))), -1, Content(0, Filled(c)), powerCycles)
  }

  lemma FreshDevDeep(c: Config, heap: Heap, powerCycles: nat)
    requires ValidConfig(c)
    ensures DeepOf(c, heap, FreshDev(c, powerCycles)) == FreshDeep(c, powerCycles) && DevOk(c, FreshDev(c, powerCycles))
    ensures FreshDev(c, powerCycles).oooData == Null && forall p :: p in FreshDev(c, powerCycles).slots ==> p == Null
  {
    assert DeepOf(c, heap, FreshDev(c, powerCycles)).blocks == FreshDeep(c, powerCycles).blocks;
  }

  lemma OneMore(c: Config, heap: Heap, devs: seq<Dev>, d: Dev)
    requires ValidConfig(c)
    ensures DeepOfAll(c, heap, devs + [d]) == DeepOfAll(c, heap, devs) + [DeepOf(c, heap, d)]
  {
    hide DeepOf;
  }

  /** The devices that share a heap. */
  class Emulator {
    const c: Config
    var heap: Heap
    var devs: seq<Dev>

    /** Every count is the number of pointers to the block. */
    ghost predicate Valid()
      reads this
    {
      ValidConfig(c) && Counts(c, heap, AllPtrs(devs)) && forall i :: 0 <= i < |devs| ==> DevOk(c, devs[i])
    }

    ghost function View(): seq<Deep>
      reads this
      requires ValidConfig(c)
    {
      DeepOfAll(c, heap, devs)
    }

    constructor (config: Config)
      requires ValidConfig(config)
      ensures Valid() && c == config && View() == []
    {
      c := config;
      heap, devs := map[], [];
    }

    /** lfs_emubd_create */
    method Create(powerCycles: nat)
      requires Valid()
      modifies this
      ensures Valid() && View() == old(View()) + [FreshDeep(c, powerCycles)]
    {
      hide Counts, Deref, Ptrs, AllPtrs, DeepOf;
      var d := FreshDev(c, powerCycles);
      AllPtrsConcat(devs, [d]);
      OnlyNulls(c, heap, AllPtrs(devs), d);
      FreshDevDeep(c, heap, powerCycles);
      OneMore(c, heap, devs, d);
      devs := devs + [d];
    }

    /** lfs_emubd_read */
    method Read(d: nat, block: nat, off: nat, size: nat) returns (err: Error, data: seq<Byte>)
      requires Valid() && d < |devs| && block < c.eraseCount && off + size <= c.eraseSize
      ensures |View()[d].blocks| == c.eraseCount && |View()[d].blocks[block].data| == c.eraseSize
      ensures var b := View()[d].blocks[block];
              && (err == Corrupt <==> devs[d].slots[block].At? && Worn(c, b) && c.badblock == ReadError)
              && (err == None ==> data == b.data[off..off + size])
    {
      hide Counts, Ptrs, OthersOf, AllPtrs;
      DevAndOthers(devs, d, devs[d]);
      DeepSizes(c, heap, devs[d], OthersOf(devs, d));
      SlotLive(c, heap, devs[d], block, OthersOf(devs, d));
      var p := devs[d].slots[block];
      assert View()[d].blocks[block] == Deref(c, heap, p);
      if p.At? {
        var b := heap[p.ref];
        if Worn(c, Content(b.wear, b.data)) && c.badblock == ReadError {
          return Corrupt, [];
        }
        return None, b.data[off..off + size];
      }
      return None, seq<Byte>(size, _ => Fill(c));
    }

    /** lfs_emubd_prog: as on a device of its own, and no other device changes. */
    method Prog(d: nat, block: nat, off: nat, data: seq<Byte>) returns (err: Error, loss: Loss)
      requires Valid() && d < |devs| && block < c.eraseCount && off + |data| <= c.eraseSize
      modifies this
      ensures Valid() && |old(View())[d].blocks| == c.eraseCount && |old(View())[d].blocks[block].data| == c.eraseSize
      ensures var (e, x, l) := DeepProg(c, old(View())[d], block, off, data);
              View() == old(View())[d := x] && err == e && loss == l
      ensures var x, y := old(View())[d], View()[d];
              && |y.blocks| == c.eraseCount
              && (err == None && !IsWorn(c, x, block) ==> y.blocks[block].data[off..off + |data|] == data)
              && y.blocks[block].wear == x.blocks[block].wear && |y.blocks[block].data| == c.eraseSize
              && forall i :: 0 <= i < c.eraseSize && !(off <= i < off + |data|) ==>
                   y.blocks[block].data[i] == x.blocks[block].data[i]
    {
      hide Counts, SameContents, Deref, Ptrs, OthersOf, AllPtrs, DeepOf, DeepProg, IsWorn, OnlyBlock;
      DevAndOthers(devs, d, devs[d]);
      DeepSlots(c, heap, devs[d]);
      var heap', d';
      err, heap', d', loss := DevProg(c, heap, devs[d], block, off, data, OthersOf(devs, d));
      ProgIs(c, View()[d], block, off, data);
      DevAndOthers(devs, d, d');
      OthersKeep(c, heap, heap', devs, d, d');
      heap, devs := heap', devs[d := d'];
    }

    /** What was programmed to a block that is not worn out is read again. */
    method ProgThenRead(d: nat, block: nat, off: nat, data: seq<Byte>) returns (err: Error, got: seq<Byte>)
      requires Valid() && d < |devs| && block < c.eraseCount && off + |data| <= c.eraseSize
      modifies this
      ensures Valid() && |old(View())[d].blocks| == c.eraseCount
      ensures !old(IsWorn(c, View()[d], block)) ==> err == None && got == data
    {
      hide Counts, Deref, DeepOf, AllPtrs, DeepProg, IsWorn;
      ghost var x := View()[d];
      ghost var loss;
      err, loss := Prog(d, block, off, data);
      ProgIs(c, x, block, off, data);
      NotWornOut(c, x, View()[d], block);
      if err == None {
        err, got := Read(d, block, off, |data|);
      } else {
        got := [];
      }
    }

    /** lfs_emubd_erase */
    method Erase(d: nat, block: nat) returns (err: Error, loss: Loss)
      requires Valid() && d < |devs| && block < c.eraseCount
      modifies this
      ensures Valid() && |old(View())[d].blocks| == c.eraseCount
      ensures var (e, x, l) := DeepErase(c, old(View())[d], block);
              View() == old(View())[d := x] && err == e && loss == l
    {
      hide Counts, SameContents, Deref, Ptrs, OthersOf, AllPtrs, DeepOf, DeepErase;
      DevAndOthers(devs, d, devs[d]);
      DeepSlots(c, heap, devs[d]);
      var heap', d';
      err, heap', d', loss := DevErase(c, heap, devs[d], block, OthersOf(devs, d));
      DevAndOthers(devs, d, d');
      OthersKeep(c, heap, heap', devs, d, d');
      heap, devs := heap', devs[d := d'];
    }

    /** lfs_emubd_setwear */
    method SetWear(d: nat, block: nat, wear: nat)
      requires Valid() && d < |devs| && block < c.eraseCount
      modifies this
      ensures Valid() && |old(View())[d].blocks| == c.eraseCount
      ensures var x := old(View())[d];
              View() == old(View())[d := x.(blocks := x.blocks[block := x.blocks[block].(wear := wear)])]
    {
      hide Counts, SameContents, Deref, Ptrs, OthersOf, AllPtrs, DeepOf;
      DevAndOthers(devs, d, devs[d]);
      DeepSlots(c, heap, devs[d]);
      var heap', d' := DevSetWear(c, heap, devs[d], block, wear, OthersOf(devs, d));
      DevAndOthers(devs, d, d');
      OthersKeep(c, heap, heap', devs, d, d');
      heap, devs := heap', devs[d := d'];
    }

    /** lfs_emubd_sync */
    method Sync(d: nat)
      requires Valid() && d < |devs|
      modifies this
      ensures Valid()
      ensures var x := old(View())[d];
              View() == old(View())[d := if c.outOfOrder then x.(oooBlock := -1, oooData := Content(0, Filled(c)))
                  else x]
    {
      hide Counts, SameContents, Deref, Ptrs, OthersOf, AllPtrs, DeepOf;
      DevAndOthers(devs, d, devs[d]);
      var heap', d' := DevSync(c, heap, devs[d], OthersOf(devs, d));
      DevAndOthers(devs, d, d');
      OthersKeep(c, heap, heap', devs, d, d');
      heap, devs := heap', devs[d := d'];
    }

    /** lfs_emubd_copy: one more device, that is what the copied one is. */
    method Copy(d: nat)
      requires Valid() && d < |devs|
      modifies this
      ensures Valid() && View() == old(View()) + [old(View())[d]]
    {
      hide Counts, SameContents, Deref, AllPtrs, DeepOf;
      ghost var all := AllPtrs(devs);
      SomeDev(devs, d);
      var x := devs[d];
      ghost var h0 := heap;
      heap := IncAll(c, heap, x.slots, all);
      ghost var h1 := heap;
      assert x.oooData in Ptrs(x);
      heap := IncBlock(c, heap, x.oooData, all + multiset(x.slots));
      assert all + multiset(x.slots) + multiset{x.oooData} == all + Ptrs(x);
      AllPtrsConcat(devs, [x]);
      OneDev(x);
      SameParts(c, h0, h1, all, multiset(x.slots));
      SameParts(c, h1, heap, all + multiset(x.slots), multiset{x.oooData});
      SameParts(c, h1, heap, all, multiset(x.slots));
      SameTwice(c, h0, h1, heap, all, all, all);
      AllKeep(c, h0, heap, devs);
      OneMore(c, heap, devs, x);
      devs := devs + [x];
    }

    /** lfs_emubd_destroy: one device less. */
    method Destroy(d: nat)
      requires Valid() && d < |devs|
      modifies this
      ensures Valid() && View() == old(View())[..d] + old(View())[d + 1..]
    {
      hide Counts, SameContents, Deref, AllPtrs, DeepOf, OthersOf;
      var x := devs[d];
      ghost var others, h0 := OthersOf(devs, d), heap;
      DevAndOthers(devs, d, x);
      assert others + Ptrs(x) == others + multiset{x.oooData} + multiset(x.slots);
      heap := DecAll(c, heap, x.slots, others + multiset{x.oooData});
      ghost var h1 := heap;
      heap := DecBlock(c, heap, x.oooData, others);
      SameParts(c, h0, h1, others, multiset{x.oooData});
      SameTwice(c, h0, h1, heap, others, others, others);
      OthersKeep(c, h0, heap, devs, d, x);
      devs := devs[..d] + devs[d + 1..];
    }
  }

  lemma NotWornOut(c: Config, x: Deep, y: Deep, block: nat)
    requires block < |x.blocks| && block < |y.blocks| && y.blocks[block].wear == x.blocks[block].wear
    ensures IsWorn(c, x, block) <==> Worn(c, y.blocks[block])
    ensures IsWorn(c, y, block) <==> IsWorn(c, x, block)
  {
  }

  lemma OneDev(d: Dev)
    ensures AllPtrs([d]) == Ptrs(d)
  {
  }

  lemma AllKeep(c: Config, heap: Heap, heap': Heap, devs: seq<Dev>)
    requires ValidConfig(c) && SameContents(c, heap, heap', AllPtrs(devs))
    ensures DeepOfAll(c, heap', devs) == DeepOfAll(c, heap, devs)
  {
    hide DeepOf, SameContents, AllPtrs, Ptrs;
    forall i | 0 <= i < |devs|
      ensures DeepOf(c, heap', devs[i]) == DeepOf(c, heap, devs[i])
    {
      SomeDev(devs, i);
      SameDeep(c, heap, heap', devs[i], AllPtrs(devs));
    }
  }

  /** lfs_emubd_setwear, on one of several devices. */
  method DevSetWear(c: Config, heap: Heap, d: Dev, block: nat, wear: nat, ghost others: multiset<Ptr>)
    returns (heap': Heap, d': Dev)
    requires ValidConfig(c) && Counts(c, heap, others + Ptrs(d)) && DevOk(c, d) && block < c.eraseCount
    ensures Counts(c, heap', others + Ptrs(d')) && DevOk(c, d') && SameContents(c, heap, heap', others)
    ensures var x := DeepOf(c, heap, d);
            DeepOf(c, heap', d') == x.(blocks := x.blocks[block := x.blocks[block].(wear := wear)])
  {
    hide Counts, SameContents, Deref, Ptrs, RestOf;
    DeepSizes(c, heap, d, others);
    heap', d' := OwnSlot(c, heap, d, block, others);
    var b := Deref(c, heap', d'.slots[block]);
    assert b == DeepOf(c, heap', d').blocks[block];
    ghost var h1 := heap';
    heap' := WriteSlot(c, heap', d', block, b.(wear := wear), others);
    SameTwice(c, heap, h1, heap', others, others, others);
  }

  /** lfs_emubd_sync, on one of several devices. */
  method DevSync(c: Config, heap: Heap, d: Dev, ghost others: multiset<Ptr>) returns (heap': Heap, d': Dev)
    requires ValidConfig(c) && Counts(c, heap, others + Ptrs(d)) && DevOk(c, d)
    ensures Counts(c, heap', others + Ptrs(d')) && DevOk(c, d') && SameContents(c, heap, heap', others)
    ensures var x := DeepOf(c, heap, d);
            DeepOf(c, heap', d') == if c.outOfOrder then x.(oooBlock := -1, oooData := Content(0, Filled(c))) else x
  {
    hide Counts, SameContents, Deref;
    heap', d' := heap, d;
    SameRefl(c, heap, others);
    if c.outOfOrder {
      ghost var slots := multiset(d.slots);
      assert others + Ptrs(d) == others + slots + multiset{d.oooData};
      heap' := DecBlock(c, heap, d.oooData, others + slots);
      d' := d.(oooBlock := -1, oooData := Null);
      NullUncounted(c, heap', others + slots);
      assert others + Ptrs(d') == others + slots + multiset{Null};
      SameParts(c, heap, heap', others, slots);
      NullDeref(c, heap');
      SlotsDeep(c, heap, heap', d, d');
    }
  }

  lemma NullDeref(c: Config, heap: Heap)
    requires ValidConfig(c)
    ensures Deref(c, heap, Null) == Content(0, Filled(c))
  {
  }

  lemma SlotsDeep(c: Config, heap: Heap, heap': Heap, d: Dev, d': Dev)
    requires ValidConfig(c) && SameContents(c, heap, heap', multiset(d.slots)) && d'.slots == d.slots
    ensures DeepOf(c, heap', d').blocks == DeepOf(c, heap, d).blocks
  {
    hide Deref;
    forall i | 0 <= i < |d.slots|
      ensures d.slots[i] in multiset(d.slots)
    {
      assert d.slots[i] in d.slots;
    }
  }

  lemma SlotLive(c: Config, heap: Heap, d: Dev, block: nat, others: multiset<Ptr>)
    requires Counts(c, heap, others + Ptrs(d)) && block < |d.slots|
    ensures d.slots[block].At? ==> d.slots[block].ref in heap
  {
    assert d.slots[block] in d.slots;
    assert d.slots[block] in Ptrs(d) && d.slots[block] in others + Ptrs(d);
  }

  lemma DeepSlots(c: Config, heap: Heap, d: Dev)
    requires ValidConfig(c)
    ensures |DeepOf(c, heap, d).blocks| == |d.slots|
  {
  }

  lemma OnlyNulls(c: Config, heap: Heap, ptrs: multiset<Ptr>, d: Dev)
    requires Counts(c, heap, ptrs) && d.oooData == Null && forall p :: p in d.slots ==> p == Null
    ensures Counts(c, heap, ptrs + AllPtrs([d]))
  {
    assert AllPtrs([d]) == Ptrs(d);
    forall r: nat
      ensures (ptrs + Ptrs(d))[At(r)] == ptrs[At(r)]
    {
      assert At(r) !in d.slots;
    }
  }
}
