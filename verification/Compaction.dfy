/** Compaction of a metadata log.

    lfs_dir_traverse copies a directory log plus the attributes of a pending commit, and drops
    every tag that a later one makes redundant. For each tag it rescans all later tags with
    lfs_dir_traverse_filter, which also renumbers the tag past creates and deletes. This module
    proves that the copy has the same meaning: for every id in the copied range, every slot holds
    what the replay of the full log holds. */
module Compaction {
  import opened MetaLog

  const FROM_NOOP := 0x000
  const FROM_MOVE := 0x101
  const FROM_USERATTRS := 0x102

  datatype Buf = Nothing | Bytes(data: seq<bv8>) | Batch(attrs: seq<Attr>)

  /** One attribute of a commit, or one tag read back from disk. For a move the batch is what
      the source directory holds for the moved id (see MoveAttrs). */
  datatype Mattr = Mattr(tag: Tag, buf: Buf)

  predicate IsPlain(m: Mattr) {
    && m.buf.Bytes?
    && ValidRec(Rec(m.tag, m.buf.data))
    && m.tag.typ != FROM_NOOP && m.tag.Type1() != 1
    && (m.tag.Type1() == 0 ==> !m.tag.IsRemoved())
    && (m.tag.IsFileAttr() ==> m.tag.id < ID_NONE)
  }

  predicate IsBatch(m: Mattr) {
    && m.buf.Batch?
    && (m.tag.typ == FROM_MOVE || m.tag.typ == FROM_USERATTRS)
    && m.tag.Fits() && m.tag.id < ID_NONE && !m.tag.IsRemoved()
    && forall k :: 0 <= k < |m.buf.attrs| ==> ValidBatchAttr(m.tag.typ, m.buf.attrs[k])
  }

  predicate ValidBatchAttr(kind: nat, a: Attr) {
    && a.size < SIZE_REMOVED
    && (a.typ / 0x100 == 3 || (kind == FROM_MOVE && a.typ / 0x100 == 2))
  }

  predicate IsNoop(m: Mattr) {
    m == Mattr(Tag(FROM_NOOP, 0, 0), Nothing)
  }

  predicate ValidItems(items: seq<Mattr>) {
    forall k :: 0 <= k < |items| ==> IsPlain(items[k]) || IsBatch(items[k]) || IsNoop(items[k])
  }

  /** Commits never remove an attribute after a batch that could set it. */
  predicate NoRemovalAfterBatch(items: seq<Mattr>) {
    forall i, j :: 0 <= i < j < |items| && IsBatch(items[i]) ==> !items[j].tag.IsRemoved()
  }

  // ---------------------------------------------------------------- meaning

  function BatchRecs(attrs: seq<Attr>, id: nat): (r: seq<Rec>)
    ensures |r| == |attrs|
  {
    seq(|attrs|, i requires 0 <= i < |attrs| => Rec(Tag(attrs[i].typ, id, attrs[i].size), attrs[i].data))
  }

  /** The tags one item stands for. */
  function ExpandOne(m: Mattr): seq<Rec> {
    match m.buf
    case Nothing => []
    case Bytes(data) => [Rec(m.tag, data)]
    case Batch(attrs) => BatchRecs(attrs, m.tag.id)
  }

  function Expand(items: seq<Mattr>): seq<Rec> {
    if items == [] then [] else ExpandOne(items[0]) + Expand(items[1..])
  }

  /** Names and structs are one slot each whatever their type, user attributes one per type. */
  function SlotMask(typ: nat): Mask {
    if typ / 0x100 == 3 then Type3 else Type1
  }

  function FindSlot(e: Entry, typ: nat): Option<Attr> {
    FindLast(e, SlotMask(typ), typ)
  }

  function Slot(e: Entry, typ: nat): Option<Attr> {
    Lookup(e, SlotMask(typ), typ)
  }

  // ---------------------------------------------------------------- traversal

  /** lfs_dir_traverse_filter: what becomes of a tag when a later tag is seen; None if the later
      tag makes it redundant. */
  function FilterOne(ft: Tag, tag: Tag): Option<Tag> {
    if (if tag.Type1() % 2 == 1 then tag.typ == ft.typ else tag.Type1() == ft.Type1()) && tag.id == ft.id then
      None
    else if ft.IsRemoved() then
      None
    else if tag.typ == TYPE_DELETE && tag.id == ft.id then
      None
    else if tag.Type1() == 4 && tag.id <= ft.id && ft.id + tag.Splice() >= 0 then
      Some(ft.(id := ft.id + tag.Splice()))
    else
      Some(ft)
  }

  function FilterBatch(ft: Tag, attrs: seq<Attr>, id: nat): Option<Tag>
    decreases |attrs|
  {
    if attrs == [] then Some(ft) else
    match FilterOne(ft, Tag(attrs[0].typ, id, attrs[0].size))
    case None => None
    case Some(t) => FilterBatch(t, attrs[1..], id)
  }

  function FilterBy(ft: Tag, m: Mattr): Option<Tag> {
    if m.tag.typ == FROM_NOOP || m.tag.typ == FROM_MOVE then Some(ft)
    else if m.buf.Batch? then FilterBatch(ft, m.buf.attrs, m.tag.id)
    else FilterOne(ft, m.tag)
  }

  /** The tag after all later items were seen. */
  function Filtered(rest: seq<Mattr>, ft: Tag): Option<Tag>
    decreases |rest|
  {
    if rest == [] then Some(ft) else
    match FilterBy(ft, rest[0])
    case None => None
    case Some(t) => Filtered(rest[1..], t)
  }

  /** Which types are copied: everything below the splices for a compaction, structs and user
      attributes for a move. */
  datatype Sel = ForCompact | ForMove {
    predicate Picks(typ: nat) {
      match this
      case ForCompact => typ < 0x400
      case ForMove => 0x200 <= typ < 0x400
    }
  }

  function Emit(m: Mattr, t: Option<Tag>, begin: nat, end: nat, diff: int): seq<Rec>
    requires begin + diff >= 0
  {
    if t.None? || !(begin <= t.value.id < end) || m.tag.typ == FROM_NOOP then []
    else match m.buf
      case Nothing => []
      case Bytes(data) => [Rec(t.value.(id := t.value.id + diff), data)]
      case Batch(attrs) => BatchRecs(attrs, t.value.id + diff)
  }

  /** What the first item contributes to the copy. */
  function Head(items: seq<Mattr>, sel: Sel, begin: nat, end: nat, diff: int): seq<Rec>
    requires |items| > 0 && begin + diff >= 0
  {
    if sel.Picks(items[0].tag.typ) then Emit(items[0], Filtered(items[1..], items[0].tag), begin, end, diff) else []
  }

  function Traverse(items: seq<Mattr>, sel: Sel, begin: nat, end: nat, diff: int): seq<Rec>
    requires begin + diff >= 0
  {
    if items == [] then [] else
    Head(items, sel, begin, end, diff) + Traverse(items[1..], sel, begin, end, diff)
  }

  function Plain(log: seq<Rec>): (r: seq<Mattr>)
    ensures |r| == |log|
  {
    seq(|log|, i requires 0 <= i < |log| => Mattr(log[i].tag, Bytes(log[i].data)))
  }

  /** What lfs_dir_compact writes for ids [begin, end) of a log and a pending commit. */
  function Compacted(log: seq<Rec>, attrs: seq<Mattr>, begin: nat, end: nat): seq<Rec> {
    Traverse(Plain(log) + attrs, ForCompact, begin, end, -(begin as int))
  }

  // ---------------------------------------------------------------- ids through a log

  /** Where an id stood before a whole log was applied. */
  function Back(log: seq<Rec>, id: nat): Option<nat>
    decreases |log|
  {
    if log == [] then Some(id) else
    match IdBefore(log[|log| - 1], id)
    case None => None
    case Some(p) => Back(log[..|log| - 1], p)
  }

  function Before(dir: seq<Entry>, p: Option<nat>): Entry {
    match p
    case None => []
    case Some(i) => At(dir, i)
  }

  lemma {:induction false} ReplayConcat(dir: seq<Entry>, a: seq<Rec>, b: seq<Rec>)
    ensures ReplayFrom(ReplayFrom(dir, a), b) == ReplayFrom(dir, a + b)
    decreases |b|
  {
    if b == [] {
      assert a + b == a;
    } else {
      var front, r := b[..|b| - 1], b[|b| - 1];
      ReplayConcat(dir, a, front);
      assert (a + b)[..|a + b| - 1] == a + front;
    }
  }

  /** The entry at an id is what its earlier position held before the log, then what the log set. */
  lemma {:induction false} EntryThrough(dir: seq<Entry>, log: seq<Rec>, id: nat)
    requires ValidLog(log)
    ensures At(ReplayFrom(dir, log), id) == Before(dir, Back(log, id)) + At(Replay(log), id)
    decreases |log|
  {
    if |log| > 0 {
      var front, r := log[..|log| - 1], log[|log| - 1];
      assert ValidRec(r);
      ApplyAt(ReplayFrom(dir, front), r, id);
      ApplyAt(Replay(front), r, id);
      match IdBefore(r, id) {
        case None =>
        case Some(p) => EntryThrough(dir, front, p);
      }
    }
  }

  lemma {:induction false} BackConcat(a: seq<Rec>, b: seq<Rec>, id: nat)
    ensures Back(a + b, id) == match Back(b, id) case None => None case Some(p) => Back(a, p)
    decreases |b|
  {
    if b == [] {
      assert a + b == a;
    } else {
      var front, r := b[..|b| - 1], b[|b| - 1];
      assert (a + b)[..|a + b| - 1] == a + front;
      match IdBefore(r, id) {
        case None =>
        case Some(p) => BackConcat(a, front, p);
      }
    }
  }

  lemma EntryConcat(a: seq<Rec>, b: seq<Rec>, id: nat)
    requires ValidLog(a) && ValidLog(b)
    ensures At(Replay(a + b), id) == Before(Replay(a), Back(b, id)) + At(Replay(b), id)
  {
    ReplayConcat([], a, b);
    EntryThrough(Replay(a), b, id);
  }

  lemma {:induction false} BackSpliceFree(log: seq<Rec>, id: nat)
    requires ValidLog(log) && SpliceFree(log)
    ensures Back(log, id) == Some(id)
    decreases |log|
  {
    if |log| > 0 {
      assert ValidRec(log[|log| - 1]);
      BackSpliceFree(log[..|log| - 1], id);
    }
  }

  // ---------------------------------------------------------------- one item

  lemma {:induction false} FindLastConcat(a: Entry, b: Entry, mask: Mask, typ: nat)
    ensures FindLast(a + b, mask, typ) ==
            if FindLast(b, mask, typ).Some? then FindLast(b, mask, typ) else FindLast(a, mask, typ)
    decreases |b|
  {
    if b == [] {
      assert a + b == a;
    } else {
      assert (a + b)[..|a + b| - 1] == a + b[..|b| - 1];
      FindLastConcat(a, b[..|b| - 1], mask, typ);
    }
  }

  lemma FindSlotOne(a: Attr, typ: nat)
    ensures FindSlot([a], typ) == if SlotMask(typ).Same(a.typ, typ) then Some(a) else None
  {
    var e := [a];
    assert e[..|e| - 1] == [];
    assert FindSlot([], typ) == None;
  }

  lemma {:induction false} FindSlotSame(e: Entry, typ: nat, other: nat)
    requires SlotMask(typ).Same(other, typ)
    ensures FindSlot(e, typ) == FindSlot(e, other)
    decreases |e|
  {
    if e != [] {
      FindSlotSame(e[..|e| - 1], typ, other);
    }
  }

  lemma ReplayEmpty(id: nat)
    ensures At(Replay([]), id) == []
  {
  }

  lemma ReplayOne(r: Rec, id: nat)
    requires ValidRec(r)
    ensures Back([r], id) == IdBefore(r, id)
    ensures At(Replay([r]), id) == if r.tag.IsFileAttr() && r.tag.id == id then [AttrOf(r)] else []
  {
    var log := [r];
    assert log[..|log| - 1] == [];
    assert Replay([]) == [];
    ApplyAt([], r, id);
    assert forall e: Entry :: [] + e == e;
  }

  lemma {:induction false} ReplayBatch(attrs: seq<Attr>, id: nat, p: nat)
    requires id < ID_NONE
    requires forall k :: 0 <= k < |attrs| ==> ValidBatchAttr(FROM_MOVE, attrs[k])
    ensures ValidLog(BatchRecs(attrs, id)) && SpliceFree(BatchRecs(attrs, id))
    ensures At(Replay(BatchRecs(attrs, id)), p) == if p == id then attrs else []
    decreases |attrs|
  {
    hide Replay, At, Back;
    var recs := BatchRecs(attrs, id);
    if attrs == [] {
      ReplayEmpty(p);
    } else {
      var n := |attrs| - 1;
      assert ValidBatchAttr(FROM_MOVE, attrs[n]);
      ReplayBatch(attrs[..n], id, p);
      assert recs[..n] == BatchRecs(attrs[..n], id);
      assert recs == recs[..n] + [recs[n]];
      ReplayOne(recs[n], p);
      EntryConcat(recs[..n], [recs[n]], p);
      assert attrs == attrs[..n] + [attrs[n]];
    }
  }

  /** What one item contributes to an id, and how it moves ids. */
  lemma ReplayItem(m: Mattr, id: nat)
    requires IsPlain(m) || IsBatch(m) || IsNoop(m)
    ensures ValidLog(ExpandOne(m))
    ensures Back(ExpandOne(m), id) == if m.buf.Bytes? then IdBefore(Rec(m.tag, m.buf.data), id) else Some(id)
    ensures At(Replay(ExpandOne(m)), id) ==
            if m.buf.Nothing? || m.tag.id != id then []
            else if m.buf.Batch? then m.buf.attrs
            else if m.tag.IsFileAttr() then [Attr(m.tag.typ, m.tag.size, m.buf.data)] else []
  {
    match m.buf {
      case Nothing =>
      case Bytes(data) => ReplayOne(Rec(m.tag, data), id);
      case Batch(attrs) =>
        assert forall k :: 0 <= k < |attrs| && ValidBatchAttr(m.tag.typ, attrs[k]) ==>
            ValidBatchAttr(FROM_MOVE, attrs[k]);
        ReplayBatch(attrs, m.tag.id, id);
        BackSpliceFree(BatchRecs(attrs, m.tag.id), id);
    }
  }

  lemma {:induction false} ExpandValid(items: seq<Mattr>)
    requires ValidItems(items)
    ensures ValidLog(Expand(items))
    decreases |items|
  {
    if items != [] {
      ReplayItem(items[0], 0);
      ExpandValid(items[1..]);
    }
  }

  /** The entry at an id, split at the first item. */
  lemma EntryCons(items: seq<Mattr>, id: nat)
    requires ValidItems(items) && |items| > 0
    ensures var e, rest := ExpandOne(items[0]), Expand(items[1..]);
            && ValidLog(e) && ValidLog(rest)
            && At(Replay(Expand(items)), id) == Before(Replay(e), Back(rest, id)) + At(Replay(rest), id)
            && Back(Expand(items), id) == match Back(rest, id) case None => None case Some(q) => Back(e, q)
  {
    ReplayItem(items[0], id);
    ExpandValid(items[1..]);
    EntryConcat(ExpandOne(items[0]), Expand(items[1..]), id);
    BackConcat(ExpandOne(items[0]), Expand(items[1..]), id);
  }

  // ---------------------------------------------------------------- the filter follows ids

  /** A tag the traversal may have to copy. */
  predicate Candidate(t: Tag) {
    t.IsFileAttr() || t.Type1() == 1
  }

  predicate Removed(hit: Option<Attr>) {
    hit.Some? && hit.value.size == SIZE_REMOVED
  }

  lemma {:induction false} FindLastIn(e: Entry, mask: Mask, typ: nat)
    ensures FindLast(e, mask, typ).Some? ==> FindLast(e, mask, typ).value in e
    decreases |e|
  {
    if e != [] {
      FindLastIn(e[..|e| - 1], mask, typ);
    }
  }

  lemma {:induction false} FilterBatchKeeps(ft: Tag, attrs: seq<Attr>, id: nat)
    requires Candidate(ft)
    requires forall k :: 0 <= k < |attrs| ==> ValidBatchAttr(FROM_USERATTRS, attrs[k])
    ensures || FilterBatch(ft, attrs, id) == Some(ft)
            || (FilterBatch(ft, attrs, id) == None &&
                (ft.IsRemoved() || (ft.IsFileAttr() && ft.id == id && FindSlot(attrs, ft.typ).Some?)))
    decreases |attrs|
  {
    if attrs != [] {
      assert ValidBatchAttr(FROM_USERATTRS, attrs[0]);
      FindSlotOne(attrs[0], ft.typ);
      FindLastConcat([attrs[0]], attrs[1..], SlotMask(ft.typ), ft.typ);
      assert attrs == [attrs[0]] + attrs[1..];
      FilterBatchKeeps(ft, attrs[1..], id);
    }
  }

  /** One later item either moves the id of a tag as replaying it does, or makes it redundant:
      the tag records a removal, or the item sets its slot. */
  lemma FilterByFollows(ft: Tag, m: Mattr, q: nat)
    requires Candidate(ft) && (IsPlain(m) || IsBatch(m) || IsNoop(m))
    ensures Back(ExpandOne(m), q) == Some(ft.id) ==>
              var hit := FindSlot(At(Replay(ExpandOne(m)), q), ft.typ);
              || (FilterBy(ft, m) == Some(ft.(id := q)) && !Removed(hit))
              || (FilterBy(ft, m) == None && (ft.IsRemoved() || (ft.IsFileAttr() && hit.Some?)))
    ensures FilterBy(ft, m).Some? ==>
              var t := FilterBy(ft, m).value;
              t == ft.(id := t.id) && Back(ExpandOne(m), t.id) == Some(ft.id)
  {
    hide Replay, At, Back, ExpandOne;
    ReplayItem(m, q);
    if FilterBy(ft, m).Some? {
      ReplayItem(m, FilterBy(ft, m).value.id);
    }
    match m.buf {
      case Nothing =>
      case Bytes(data) =>
        FindSlotOne(Attr(m.tag.typ, m.tag.size, data), ft.typ);
      case Batch(attrs) =>
        FindLastIn(attrs, SlotMask(ft.typ), ft.typ);
        if m.tag.typ == FROM_USERATTRS {
          FilterBatchKeeps(ft, attrs, m.tag.id);
        }
    }
  }

  /** All later items: the filter renumbers a tag to the id its entry ends up at, or drops it
      because its entry is deleted, its slot is set again, or it only records a removal. */
  lemma {:induction false} FilterFollows(items: seq<Mattr>, ft: Tag, id: nat)
    requires ValidItems(items) && Candidate(ft)
    ensures Back(Expand(items), id) == Some(ft.id) ==>
              var hit := FindSlot(At(Replay(Expand(items)), id), ft.typ);
              || (Filtered(items, ft) == Some(ft.(id := id)) && !Removed(hit))
              || (Filtered(items, ft) == None && (ft.IsRemoved() || (ft.IsFileAttr() && hit.Some?)))
    ensures Filtered(items, ft).Some? ==>
              var t := Filtered(items, ft).value;
              t == ft.(id := t.id) && Back(Expand(items), t.id) == Some(ft.id)
    decreases |items|
  {
    if items != [] {
      var m, rest := items[0], items[1..];
      EntryCons(items, id);
      var q := Back(Expand(rest), id);
      if q.Some? {
        FilterByFollows(ft, m, q.value);
        FindLastConcat(At(Replay(ExpandOne(m)), q.value), At(Replay(Expand(rest)), id), SlotMask(ft.typ), ft.typ);
      } else {
        FilterByFollows(ft, m, 0);
      }
      match FilterBy(ft, m) {
        case None =>
        case Some(t) =>
          FilterFollows(rest, t, id);
          if Filtered(rest, t).Some? {
            EntryCons(items, Filtered(rest, t).value.id);
          }
      }
    }
  }

  // ---------------------------------------------------------------- the copy means the same

  /** The copy of an entry answers as the entry does, and sets nothing the entry does not set. */
  predicate Agrees(copy: Entry, entry: Entry, typ: nat) {
    && Slot(copy, typ) == Slot(entry, typ)
    && (FindSlot(entry, typ) == None ==> FindSlot(copy, typ) == None)
  }

  /** How the first item's copy relates to its contribution, given what the later items set. */
  predicate HeadFits(c: Entry, e: Entry, later: Entry, typ: nat) {
    || (c == e && !Removed(FindSlot(later, typ)))
    || (FindSlot(c, typ) == None &&
        (FindSlot(later, typ).Some? || FindSlot(e, typ) == None || Removed(FindSlot(e, typ))))
  }

  lemma AgreesConcat(c: Entry, e: Entry, copy: Entry, entry: Entry, typ: nat)
    requires Agrees(copy, entry, typ)
    requires HeadFits(c, e, entry, typ)
    ensures Agrees(c + copy, e + entry, typ)
  {
    FindLastConcat(c, copy, SlotMask(typ), typ);
    FindLastConcat(e, entry, SlotMask(typ), typ);
  }

  lemma {:induction false} NothingRemoved(items: seq<Mattr>, id: nat, typ: nat)
    requires ValidItems(items) && forall k :: 0 <= k < |items| ==> !items[k].tag.IsRemoved()
    ensures !Removed(FindSlot(At(Replay(Expand(items)), id), typ))
    decreases |items|
  {
    if items != [] {
      EntryCons(items, id);
      var q := Back(Expand(items[1..]), id);
      var e := Before(Replay(ExpandOne(items[0])), q);
      if q.Some? {
        ReplayItem(items[0], q.value);
      }
      FindLastIn(e, SlotMask(typ), typ);
      FindLastConcat(e, At(Replay(Expand(items[1..])), id), SlotMask(typ), typ);
      NothingRemoved(items[1..], id, typ);
    }
  }

  lemma EmitAt(m: Mattr, t: Option<Tag>, begin: nat, end: nat, diff: int, j: nat)
    requires IsPlain(m) || IsBatch(m) || IsNoop(m)
    requires m.tag.typ < 0x400 && 0 <= begin + diff && end + diff <= ID_NONE
    requires t.Some? ==> t.value == m.tag.(id := t.value.id)
    ensures var e := Emit(m, t, begin, end, diff);
            && ValidLog(e) && SpliceFree(e)
            && At(Replay(e), j) ==
               if t.None? || !(begin <= t.value.id < end) || t.value.id + diff != j then []
               else match m.buf
                 case Nothing => []
                 case Bytes(data) => [Attr(m.tag.typ, m.tag.size, data)]
                 case Batch(attrs) => attrs
  {
    if t.Some? && begin <= t.value.id < end {
      match m.buf {
        case Nothing =>
        case Bytes(data) => ReplayOne(Rec(t.value.(id := t.value.id + diff), data), j);
        case Batch(attrs) =>
          assert forall k :: 0 <= k < |attrs| && ValidBatchAttr(m.tag.typ, attrs[k]) ==>
              ValidBatchAttr(FROM_MOVE, attrs[k]);
          ReplayBatch(attrs, t.value.id + diff, j);
      }
    }
  }

  lemma {:induction false} TraverseValid(items: seq<Mattr>, sel: Sel, begin: nat, end: nat, diff: int)
    requires ValidItems(items) && 0 <= begin + diff && end + diff <= ID_NONE
    ensures ValidLog(Traverse(items, sel, begin, end, diff))
    ensures SpliceFree(Traverse(items, sel, begin, end, diff))
    decreases |items|
  {
    if items != [] {
      if sel.Picks(items[0].tag.typ) {
        FilterFollows(items[1..], items[0].tag, 0);
        EmitAt(items[0], Filtered(items[1..], items[0].tag), begin, end, diff, 0);
      }
      TraverseValid(items[1..], sel, begin, end, diff);
    }
  }

  lemma TraverseCons(items: seq<Mattr>, sel: Sel, begin: nat, end: nat, diff: int, j: nat)
    requires ValidItems(items) && |items| > 0 && 0 <= begin + diff && end + diff <= ID_NONE
    ensures ValidLog(Head(items, sel, begin, end, diff))
    ensures At(Replay(Traverse(items, sel, begin, end, diff)), j) ==
            At(Replay(Head(items, sel, begin, end, diff)), j)
            + At(Replay(Traverse(items[1..], sel, begin, end, diff)), j)
  {
    var rest := Traverse(items[1..], sel, begin, end, diff);
    TraverseValid(items[1..], sel, begin, end, diff);
    if sel.Picks(items[0].tag.typ) {
      FilterFollows(items[1..], items[0].tag, 0);
      EmitAt(items[0], Filtered(items[1..], items[0].tag), begin, end, diff, j);
    }
    EntryConcat(Head(items, sel, begin, end, diff), rest, j);
    BackSpliceFree(rest, j);
  }

  /** Ids outside the copied range get nothing. */
  lemma {:induction false} TraverseOutside(items: seq<Mattr>, sel: Sel, begin: nat, end: nat, diff: int, j: nat)
    requires ValidItems(items) && 0 <= begin + diff && end + diff <= ID_NONE
    requires !(begin + diff <= j < end + diff)
    ensures At(Replay(Traverse(items, sel, begin, end, diff)), j) == []
    decreases |items|
  {
    if items != [] {
      TraverseCons(items, sel, begin, end, diff, j);
      if sel.Picks(items[0].tag.typ) {
        FilterFollows(items[1..], items[0].tag, 0);
        EmitAt(items[0], Filtered(items[1..], items[0].tag), begin, end, diff, j);
      }
      TraverseOutside(items[1..], sel, begin, end, diff, j);
    }
  }

  lemma HeadAgrees(items: seq<Mattr>, sel: Sel, begin: nat, end: nat, diff: int, id: nat, typ: nat)
    requires ValidItems(items) && NoRemovalAfterBatch(items) && 0 <= begin + diff && end + diff <= ID_NONE
    requires |items| > 0 && (sel.ForMove? ==> IsPlain(items[0]))
    requires begin <= id < end && Tag(typ, 0, 0).IsFileAttr() && sel.Picks(typ)
    ensures HeadFits(At(Replay(Head(items, sel, begin, end, diff)), id + diff),
                     Before(Replay(ExpandOne(items[0])), Back(Expand(items[1..]), id)),
                     At(Replay(Expand(items[1..])), id), typ)
  {
    hide Replay, Back, Filtered, Expand, ExpandOne, Emit;
    var m, rest := items[0], items[1..];
    var q := Back(Expand(rest), id);
    if q.Some? {
      ReplayItem(m, q.value);
    }
    if sel.Picks(m.tag.typ) {
      FilterFollows(rest, m.tag, id);
      EmitAt(m, Filtered(rest, m.tag), begin, end, diff, id + diff);
    }
    ReplayEmpty(id + diff);
    match m.buf {
      case Nothing =>
      case Bytes(data) =>
        FindSlotOne(Attr(m.tag.typ, m.tag.size, data), typ);
        if SlotMask(typ).Same(m.tag.typ, typ) {
          FindSlotSame(At(Replay(Expand(rest)), id), typ, m.tag.typ);
        }
      case Batch(_) => NothingRemoved(rest, id, typ);
    }
  }

  /** Every slot of every id in the copied range reads the same from the copy. */
  lemma {:induction false} TraverseAgrees(items: seq<Mattr>, sel: Sel, begin: nat, end: nat, diff: int, id: nat,
        typ: nat)
    requires ValidItems(items) && NoRemovalAfterBatch(items) && 0 <= begin + diff && end + diff <= ID_NONE
    requires sel.ForMove? ==> forall k :: 0 <= k < |items| ==> IsPlain(items[k])
    requires begin <= id < end && Tag(typ, 0, 0).IsFileAttr() && sel.Picks(typ)
    ensures Agrees(At(Replay(Traverse(items, sel, begin, end, diff)), id + diff), At(Replay(Expand(items)), id), typ)
    decreases |items|
  {
    hide Traverse, Replay, At, Expand, Head, Back, ExpandOne, Before, Agrees, HeadFits;
    if items == [] {
      NothingAgrees(sel, begin, end, diff, id, typ);
    } else {
      var m, rest := items[0], items[1..];
      TraverseAgrees(rest, sel, begin, end, diff, id, typ);
      TraverseCons(items, sel, begin, end, diff, id + diff);
      EntryCons(items, id);
      var q := Back(Expand(rest), id);
      var e := Before(Replay(ExpandOne(m)), q);
      var c := At(Replay(Head(items, sel, begin, end, diff)), id + diff);
      HeadAgrees(items, sel, begin, end, diff, id, typ);
      AgreesConcat(c, e, At(Replay(Traverse(rest, sel, begin, end, diff)), id + diff), At(Replay(Expand(rest)), id),
          typ);
    }
  }

  lemma NothingAgrees(sel: Sel, begin: nat, end: nat, diff: int, id: nat, typ: nat)
    requires 0 <= begin + diff && end + diff <= ID_NONE && begin <= id
    ensures Agrees(At(Replay(Traverse([], sel, begin, end, diff)), id + diff), At(Replay(Expand([])), id), typ)
  {
    ReplayEmpty(id + diff);
    ReplayEmpty(id);
  }

  // ---------------------------------------------------------------- compaction and splits

  lemma {:induction false} ExpandConcat(a: seq<Mattr>, b: seq<Mattr>)
    ensures Expand(a + b) == Expand(a) + Expand(b)
    decreases |a|
  {
    if a == [] {
      assert a + b == b;
    } else {
      assert (a + b)[1..] == a[1..] + b;
      ExpandConcat(a[1..], b);
    }
  }

  lemma {:induction false} ExpandPlain(log: seq<Rec>)
    ensures Expand(Plain(log)) == log
    decreases |log|
  {
    if log != [] {
      assert Plain(log)[1..] == Plain(log[1..]);
      ExpandPlain(log[1..]);
    }
  }

  /** A commit that littlefs may make on a directory log. */
  predicate ValidCommit(log: seq<Rec>, attrs: seq<Mattr>) {
    ValidItems(Plain(log) + attrs) && NoRemovalAfterBatch(Plain(log) + attrs)
  }

  /** The main result: compacting a log and a pending commit gives every id in range what
      appending the commit to the log would give it, and gives nothing to any other id. */
  lemma CompactionPreservesMeaning(log: seq<Rec>, attrs: seq<Mattr>, begin: nat, end: nat, id: nat, typ: nat)
    requires ValidCommit(log, attrs) && begin <= end <= ID_NONE
    requires Tag(typ, 0, 0).IsFileAttr()
    ensures var compact, full := Compacted(log, attrs, begin, end), log + Expand(attrs);
            && ValidLog(compact) && SpliceFree(compact) && ValidLog(full)
            && Slot(At(Replay(compact), id), typ) ==
               if begin + id < end then Slot(At(Replay(full), begin + id), typ) else None
  {
    hide Traverse, Replay, At, Expand, Plain;
    var items := Plain(log) + attrs;
    ExpandConcat(Plain(log), attrs);
    ExpandPlain(log);
    ExpandValid(items);
    TraverseValid(items, ForCompact, begin, end, -(begin as int));
    if begin + id < end {
      TraverseAgrees(items, ForCompact, begin, end, -(begin as int), begin + id, typ);
    } else {
      TraverseOutside(items, ForCompact, begin, end, -(begin as int), id);
    }
  }

  /** Splitting at any point: the two halves, one after the other, read as the whole. */
  lemma SplitConcatenates(log: seq<Rec>, attrs: seq<Mattr>, split: nat, end: nat, id: nat, typ: nat)
    requires ValidCommit(log, attrs) && split <= end <= ID_NONE && id < end
    requires Tag(typ, 0, 0).IsFileAttr()
    ensures var head, tail := Compacted(log, attrs, 0, split), Compacted(log, attrs, split, end);
            Slot(At(Replay(log + Expand(attrs)), id), typ) ==
            if id < split then Slot(At(Replay(head), id), typ) else Slot(At(Replay(tail), id - split), typ)
  {
    hide Compacted, Replay, At, Expand, Slot, ValidCommit;
    if id < split {
      CompactionPreservesMeaning(log, attrs, 0, split, id, typ);
    } else {
      CompactionPreservesMeaning(log, attrs, split, end, id - split, typ);
    }
  }

  // ---------------------------------------------------------------- the count a fetch finds

  /** lfs_dir_fetchmatch counts entries without storing them: names extend, splices add. */
  function FetchCount(log: seq<Rec>): int
    decreases |log|
  {
    if log == [] then 0 else
    var count, tag := FetchCount(log[..|log| - 1]), log[|log| - 1].tag;
    if tag.Type1() == 0 then (if tag.id >= count then tag.id + 1 else count)
    else if tag.Type1() == 4 then count + tag.Splice()
    else count
  }

  const NAME := 0x000

  predicate NamesKept(log: seq<Rec>) {
    forall k :: 0 <= k < |log| && log[k].tag.Type1() == 0 ==> !log[k].tag.IsRemoved()
  }

  /** In a log without splices, the count is one more than the last id that has a name. */
  lemma {:induction false} CountSpliceFree(log: seq<Rec>, id: nat)
    requires ValidLog(log) && SpliceFree(log) && NamesKept(log)
    ensures FetchCount(log) >= 0
    ensures Slot(At(Replay(log), id), NAME) == FindSlot(At(Replay(log), id), NAME)
    ensures Slot(At(Replay(log), id), NAME).Some? ==> id < FetchCount(log)
    ensures id + 1 == FetchCount(log) ==> Slot(At(Replay(log), id), NAME).Some?
    decreases |log|
  {
    if |log| > 0 {
      var front, r := log[..|log| - 1], log[|log| - 1];
      assert ValidRec(r) && r.tag.Type1() != 4;
      CountSpliceFree(front, id);
      ApplyAt(Replay(front), r, id);
      FindSlotOne(AttrOf(r), NAME);
      FindLastConcat(At(Replay(front), id), [AttrOf(r)], Type1, NAME);
      assert At(Replay(front), id) + [] == At(Replay(front), id);
    }
  }

  lemma {:induction false} TraverseNamesKept(items: seq<Mattr>, sel: Sel, begin: nat, end: nat, diff: int)
    requires ValidItems(items) && 0 <= begin + diff && end + diff <= ID_NONE
    ensures NamesKept(Traverse(items, sel, begin, end, diff))
    decreases |items|
  {
    if items != [] {
      if sel.Picks(items[0].tag.typ) {
        FilterFollows(items[1..], items[0].tag, 0);
      }
      TraverseNamesKept(items[1..], sel, begin, end, diff);
    }
  }

  /** After a compaction the directory is reported to have end - begin entries. A fetch of the
      new log agrees exactly when the last copied entry has a name. */
  lemma CompactedCount(log: seq<Rec>, attrs: seq<Mattr>, begin: nat, end: nat)
    requires ValidCommit(log, attrs) && begin < end <= ID_NONE
    ensures FetchCount(Compacted(log, attrs, begin, end)) <= end - begin
    ensures FetchCount(Compacted(log, attrs, begin, end)) == end - begin <==>
            Slot(At(Replay(log + Expand(attrs)), end - 1), NAME).Some?
  {
    hide Replay, At, Expand, Slot, FetchCount, Traverse, NamesKept;
    var out := Compacted(log, attrs, begin, end);
    CompactionPreservesMeaning(log, attrs, begin, end, end - 1 - begin, NAME);
    TraverseNamesKept(Plain(log) + attrs, ForCompact, begin, end, -(begin as int));
    CountSpliceFree(out, end - 1 - begin);
    if FetchCount(out) > end - begin {
      CompactionPreservesMeaning(log, attrs, begin, end, FetchCount(out) - 1, NAME);
      CountSpliceFree(out, FetchCount(out) - 1);
      assert false;
    }
  }

  // ---------------------------------------------------------------- moves

  function AttrsOf(log: seq<Rec>): (r: seq<Attr>)
    ensures |r| == |log|
  {
    seq(|log|, i requires 0 <= i < |log| => AttrOf(log[i]))
  }

  /** What a move copies: the structs and user attributes of one id of the source directory. */
  function MoveAttrs(src: seq<Rec>, from: nat): seq<Attr> {
    AttrsOf(Traverse(Plain(src), ForMove, from, from + 1, -(from as int)))
  }

  /** A log as it is on disk, where the last tag closes a commit. */
  predicate OnDisk(log: seq<Rec>) {
    ValidItems(Plain(log)) && (log == [] || !log[|log| - 1].tag.IsRemoved())
  }

  lemma {:induction false} TraverseMoves(items: seq<Mattr>, from: nat)
    requires ValidItems(items) && from < ID_NONE
    requires forall k :: 0 <= k < |items| ==> IsPlain(items[k])
    requires items == [] || !items[|items| - 1].tag.IsRemoved()
    ensures forall r :: r in Traverse(items, ForMove, from, from + 1, -(from as int)) ==>
              ValidBatchAttr(FROM_MOVE, AttrOf(r)) && r.tag.id == 0
    decreases |items|
  {
    if items != [] {
      var m, rest := items[0], items[1..];
      TraverseMoves(rest, from);
      if ForMove.Picks(m.tag.typ) {
        FilterFollows(rest, m.tag, 0);
      }
      assert m.tag.IsRemoved() ==> rest != [] && IsPlain(rest[0]) && Filtered(rest, m.tag) == None;
    }
  }

  lemma {:induction false} AllAtZero(log: seq<Rec>)
    requires ValidLog(log) && forall k :: 0 <= k < |log| ==> log[k].tag.id == 0 && log[k].tag.IsFileAttr()
    ensures At(Replay(log), 0) == AttrsOf(log)
    decreases |log|
  {
    if |log| > 0 {
      var front, r := log[..|log| - 1], log[|log| - 1];
      assert ValidRec(r);
      AllAtZero(front);
      ApplyAt(Replay(front), r, 0);
      assert AttrsOf(log) == AttrsOf(front) + [AttrOf(r)];
    }
  }

  /** A move is a valid batch, and carries over every struct and user attribute. */
  lemma MoveCarries(src: seq<Rec>, from: nat, typ: nat)
    requires OnDisk(src) && from < ID_NONE && 0x200 <= typ < 0x400
    ensures forall k :: 0 <= k < |MoveAttrs(src, from)| ==> ValidBatchAttr(FROM_MOVE, MoveAttrs(src, from)[k])
    ensures Slot(MoveAttrs(src, from), typ) == Slot(At(Replay(src), from), typ)
  {
    hide Traverse, Replay, At, Expand, Slot;
    var diff := -(from as int);
    var out := Traverse(Plain(src), ForMove, from, from + 1, diff);
    TraverseValid(Plain(src), ForMove, from, from + 1, diff);
    TraverseMoves(Plain(src), from);
    TraverseAgrees(Plain(src), ForMove, from, from + 1, diff, from, typ);
    ExpandPlain(src);
    forall k | 0 <= k < |out|
      ensures ValidBatchAttr(FROM_MOVE, AttrOf(out[k])) && out[k].tag.id == 0
    {
      assert out[k] in out;
    }
    AllAtZero(out);
  }

  // ---------------------------------------------------------------- the loops

  /** The callback, with its effect on the tag it filters. */
  method FilterTag(ft: Tag, tag: Tag) returns (ft': Tag, redundant: bool)
    requires tag.Type1() == 4 ==> tag.typ == TYPE_CREATE || tag.typ == TYPE_DELETE
    ensures redundant <==> FilterOne(ft, tag).None?
    ensures if redundant then ft' == Tag(FROM_NOOP, 0, 0) else FilterOne(ft, tag) == Some(ft')
  {
    // odd top types are one slot per type, even ones one slot in all
    var same := if tag.Type1() % 2 == 1 then tag.typ == ft.typ else tag.Type1() == ft.Type1();
    if (same && tag.id == ft.id) || ft.IsRemoved() || (tag.typ == TYPE_DELETE && tag.id == ft.id) {
      return Tag(FROM_NOOP, 0, 0), true;
    }
    if tag.Type1() == 4 && tag.id <= ft.id {
      return ft.(id := ft.id + tag.Splice()), false;
    }
    return ft, false;
  }

  /** The inner traversal: passes every later item to the filter, until one makes the tag
      redundant. A redundant tag is left as a no-op. */
  method FilterScan(items: seq<Mattr>, from: nat, tag: Tag) returns (ft: Tag)
    requires ValidItems(items) && from <= |items|
    ensures match Filtered(items[from..], tag) case None => ft.typ == FROM_NOOP case Some(t) => ft == t
  {
    ft := tag;
    ghost var spec := Some(tag);
    var k := from;
    while k < |items|
      invariant from <= k <= |items|
      invariant match spec case None => ft.typ == FROM_NOOP case Some(t) => ft == t
      invariant Filtered(items[from..], tag) ==
                match spec case None => None case Some(t) => Filtered(items[k..], t)
    {
      var m := items[k];
      assert IsPlain(m) || IsBatch(m) || IsNoop(m);
      assert items[k..][0] == m && items[k..][1..] == items[k + 1..];
      k := k + 1;
      ghost var next := match spec case None => None case Some(t) => FilterBy(t, m);
      if m.tag.typ == FROM_NOOP || m.tag.typ == FROM_MOVE {
        // nothing to compare with
      } else if m.tag.typ == FROM_USERATTRS {
        ft := FilterUser(ft, m, spec);
      } else {
        var redundant;
        ft, redundant := FilterTag(ft, m.tag);
        if redundant {
          return;
        }
      }
      spec := next;
    }
  }

  method FilterUser(tag: Tag, m: Mattr, ghost spec: Option<Tag>) returns (ft: Tag)
    requires IsBatch(m) && m.tag.typ == FROM_USERATTRS
    requires match spec case None => tag.typ == FROM_NOOP case Some(t) => tag == t
    ensures match spec
            case None => ft.typ == FROM_NOOP
            case Some(t) =>
              match FilterBy(t, m) case None => ft.typ == FROM_NOOP case Some(u) => ft == u
  {
    ft := tag;
    var attrs := m.buf.attrs;
    for i := 0 to |attrs|
      invariant spec.None? ==> ft.typ == FROM_NOOP
      invariant spec.Some? ==> FilterBatch(tag, attrs, m.tag.id) == FilterBatch(ft, attrs[i..], m.tag.id)
    {
      assert ValidBatchAttr(m.tag.typ, attrs[i]);
      assert attrs[i..][0] == attrs[i] && attrs[i..][1..] == attrs[i + 1..];
      var redundant;
      ft, redundant := FilterTag(ft, Tag(attrs[i].typ, m.tag.id, attrs[i].size));
      if redundant {
        return;
      }
    }
  }

  /** One round of the outer traversal: filter one item, then write what is left of it. */
  method TraverseOne(items: seq<Mattr>, k: nat, sel: Sel, begin: nat, end: nat, diff: int)
    returns (recs: seq<Rec>)
    requires ValidItems(items) && k < |items| && begin + diff >= 0
    ensures recs == Head(items[k..], sel, begin, end, diff)
  {
    hide Filtered, Expand, Back, Replay, BatchRecs;
    var m := items[k];
    assert items[k..][1..] == items[k + 1..];
    if !sel.Picks(m.tag.typ) {
      return [];
    }
    assert IsPlain(m) || IsBatch(m) || IsNoop(m);
    FilterFollows(items[k + 1..], m.tag, 0);
    var tag := FilterScan(items, k + 1, m.tag);
    if !(begin <= tag.id < end) || tag.typ == FROM_NOOP {
      return [];
    }
    if tag.typ == FROM_MOVE || tag.typ == FROM_USERATTRS {
      return BatchRecs(m.buf.attrs, tag.id + diff);
    }
    return [Rec(tag.(id := tag.id + diff), m.buf.data)];
  }

  /** lfs_dir_traverse over a directory log and then the attributes of a commit, with an id
      range: copies the selected tags that survive the filter. */
  method TraverseLoop(log: seq<Rec>, attrs: seq<Mattr>, sel: Sel, begin: nat, end: nat, diff: int)
    returns (out: seq<Rec>)
    requires ValidItems(Plain(log) + attrs) && begin + diff >= 0
    ensures out == Traverse(Plain(log) + attrs, sel, begin, end, diff)
  {
    hide Head, Plain;
    out := [];
    var items := Plain(log) + attrs;
    var k := 0;
    while k < |items|
      invariant 0 <= k <= |items|
      invariant out + Traverse(items[k..], sel, begin, end, diff) == Traverse(items, sel, begin, end, diff)
    {
      var recs := TraverseOne(items, k, sel, begin, end, diff);
      assert items[k..][1..] == items[k + 1..];
      assert out + (recs + Traverse(items[k + 1..], sel, begin, end, diff))
          == (out + recs) + Traverse(items[k + 1..], sel, begin, end, diff);
      out := out + recs;
      k := k + 1;
    }
  }

  /** The nested traversal of a move: what the source directory holds for the moved id. */
  method ReadMove(src: seq<Rec>, from: nat) returns (attrs: seq<Attr>)
    requires OnDisk(src)
    ensures attrs == MoveAttrs(src, from)
  {
    assert Plain(src) + [] == Plain(src);
    var recs := TraverseLoop(src, [], ForMove, from, from + 1, -(from as int));
    attrs := AttrsOf(recs);
  }
}
