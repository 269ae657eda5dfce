/** What a directory log shows to its readers, and what commits do to it.

    A listing keeps one value per slot of each entry and forgets the history. The module shows
    that a commit leads to the same listing whether it is appended to the log or forces a
    compaction, and computes the listings that creating, deleting and moving entries lead to. */
module Directory {
  import opened MetaLog
  import opened Compaction

  const STRUCT := 0x200

  /** The slots of an entry: its name, its struct, and one user attribute per type. */
  predicate IsSlot(typ: nat) {
    typ == NAME || typ == STRUCT || 0x300 <= typ < 0x400
  }

  type EntryView = map<nat, Attr>

  function ViewOf(e: Entry): EntryView {
    map typ: nat | typ < 0x400 && IsSlot(typ) && Slot(e, typ).Some? :: Slot(e, typ).value
  }

  function Views(dir: seq<Entry>): (r: seq<EntryView>)
    ensures |r| == |dir|
  {
    seq(|dir|, i requires 0 <= i < |dir| => ViewOf(dir[i]))
  }

  /** The listing of a directory. */
  function Listing(log: seq<Rec>): seq<EntryView> {
    Views(Replay(log))
  }

  function InsertAt<T>(s: seq<T>, i: nat, x: T): seq<T>
    requires i <= |s|
  {
    s[..i] + [x] + s[i..]
  }

  function RemoveAt<T>(s: seq<T>, i: nat): seq<T>
    requires i < |s|
  {
    s[..i] + s[i + 1..]
  }

  // ---------------------------------------------------------------- commits

  /** The tag that closes every commit. */
  const CLOSE := Rec(Tag(0x500, ID_NONE, 4), [])

  /** The log after a commit of some attributes: appended, or rewritten by a compaction. */
  function CommitLog(log: seq<Rec>, attrs: seq<Mattr>, compact: bool): seq<Rec> {
    if compact then Compacted(log, attrs, 0, |Replay(log + Expand(attrs))|) + [CLOSE]
    else log + Expand(attrs) + [CLOSE]
  }

  /** The most entries whose ids stay below the reserved one while a lookup walks back. */
  const MAX_ENTRIES := 0x3fd

  /** Every entry was given a name, and the ids leave room for the reserved one. */
  predicate Named(dir: seq<Entry>) {
    && |dir| <= MAX_ENTRIES
    && forall i :: 0 <= i < |dir| ==> Slot(dir[i], NAME).Some?
  }

  lemma CloseShowsNothing(log: seq<Rec>)
    ensures Replay(log + [CLOSE]) == Replay(log)
    ensures FetchCount(log + [CLOSE]) == FetchCount(log)
  {
    assert (log + [CLOSE])[..|log + [CLOSE]| - 1] == log;
  }

  /** In a log without splices only ids that were set exist. */
  lemma {:induction false} SpliceFreeTight(log: seq<Rec>)
    requires ValidLog(log) && SpliceFree(log)
    ensures var dir := Replay(log); dir != [] ==> dir[|dir| - 1] != []
    decreases |log|
  {
    if |log| > 0 {
      var front, r := log[..|log| - 1], log[|log| - 1];
      assert ValidRec(r);
      SpliceFreeTight(front);
      var n := |Replay(log)|;
      if n > 0 {
        ApplyAt(Replay(front), r, n - 1);
      }
    }
  }

  lemma SlotEmpty(typ: nat)
    ensures Slot([], typ) == None && FindSlot([], typ) == None
  {
  }

  /** A compacted range holds exactly as many entries as it has ids. */
  lemma RangeLength(log: seq<Rec>, attrs: seq<Mattr>, begin: nat, end: nat)
    requires ValidCommit(log, attrs) && Named(Replay(log + Expand(attrs)))
    requires begin <= end <= |Replay(log + Expand(attrs))|
    ensures |Replay(Compacted(log, attrs, begin, end))| == end - begin
  {
    hide Replay, Compacted, Expand, ValidCommit;
    var full := Replay(log + Expand(attrs));
    var compact := Compacted(log, attrs, begin, end);
    var dir := Replay(compact);
    CompactionPreservesMeaning(log, attrs, begin, end, 0, NAME);
    SpliceFreeTight(compact);
    SlotEmpty(NAME);
    if begin < end {
      CompactionPreservesMeaning(log, attrs, begin, end, end - 1 - begin, NAME);
      assert At(full, end - 1) == full[end - 1];
    }
    if |dir| > end - begin {
      TraverseOutsideRange(log, attrs, begin, end, |dir| - 1);
      assert false;
    }
  }

  lemma TraverseOutsideRange(log: seq<Rec>, attrs: seq<Mattr>, begin: nat, end: nat, j: nat)
    requires ValidCommit(log, attrs) && begin <= end <= begin + j && end <= ID_NONE
    ensures At(Replay(Compacted(log, attrs, begin, end)), j) == []
  {
    TraverseOutside(Plain(log) + attrs, ForCompact, begin, end, -(begin as int), j);
  }

  lemma SameSlotsSameView(a: Entry, b: Entry)
    requires forall typ: nat :: IsSlot(typ) && typ < 0x400 ==> Slot(a, typ) == Slot(b, typ)
    ensures ViewOf(a) == ViewOf(b)
  {
  }

  /** A compacted range lists exactly the entries with those ids. */
  lemma RangeListing(log: seq<Rec>, attrs: seq<Mattr>, begin: nat, end: nat)
    requires ValidCommit(log, attrs) && Named(Replay(log + Expand(attrs)))
    requires begin <= end <= |Replay(log + Expand(attrs))|
    ensures Listing(Compacted(log, attrs, begin, end)) == Listing(log + Expand(attrs))[begin..end]
  {
    hide Replay, Compacted, Expand, ValidCommit, Slot, ViewOf;
    var full, copy := Replay(log + Expand(attrs)), Replay(Compacted(log, attrs, begin, end));
    RangeLength(log, attrs, begin, end);
    forall id | 0 <= id < end - begin
      ensures ViewOf(copy[id]) == ViewOf(full[begin + id])
    {
      forall typ: nat | IsSlot(typ) && typ < 0x400
        ensures Slot(copy[id], typ) == Slot(full[begin + id], typ)
      {
        CompactionPreservesMeaning(log, attrs, begin, end, id, typ);
      }
      SameSlotsSameView(copy[id], full[begin + id]);
    }
  }

  /** A commit leads to the same listing whether it is appended or compacted. */
  lemma EitherPath(log: seq<Rec>, attrs: seq<Mattr>, compact: bool)
    requires ValidCommit(log, attrs) && Named(Replay(log + Expand(attrs)))
    ensures Listing(CommitLog(log, attrs, compact)) == Listing(log + Expand(attrs))
  {
    hide Replay, Compacted, Expand, ValidCommit, Slot, ViewOf;
    var list := Listing(log + Expand(attrs));
    if compact {
      CloseShowsNothing(Compacted(log, attrs, 0, |list|));
      RangeListing(log, attrs, 0, |list|);
      assert list[0..|list|] == list;
    } else {
      CloseShowsNothing(log + Expand(attrs));
    }
  }

  // ---------------------------------------------------------------- counts

  /** The count a fetch finds is the number of entries. */
  predicate Counted(log: seq<Rec>) {
    FetchCount(log) == |Replay(log)|
  }

  /** The log is one littlefs writes, and the count a fetch finds is the number of entries. */
  predicate Sound(log: seq<Rec>) {
    WellFormed(log) && Counted(log)
  }

  lemma RangeCounted(log: seq<Rec>, attrs: seq<Mattr>, begin: nat, end: nat)
    requires ValidCommit(log, attrs) && Named(Replay(log + Expand(attrs)))
    requires begin <= end <= |Replay(log + Expand(attrs))|
    ensures Counted(Compacted(log, attrs, begin, end))
  {
    hide Replay, Compacted, Expand, ValidCommit, Slot;
    var full := Replay(log + Expand(attrs));
    RangeLength(log, attrs, begin, end);
    if begin < end {
      CompactedCount(log, attrs, begin, end);
      assert At(full, end - 1) == full[end - 1];
    } else {
      CompactedNone(log, attrs, begin);
    }
  }

  lemma CompactedNone(log: seq<Rec>, attrs: seq<Mattr>, begin: nat)
    requires ValidCommit(log, attrs) && begin <= ID_NONE
    ensures FetchCount(Compacted(log, attrs, begin, begin)) == 0
  {
    var copy := Compacted(log, attrs, begin, begin);
    CompactionPreservesMeaning(log, attrs, begin, begin, 0, NAME);
    TraverseNamesKept(Plain(log) + attrs, ForCompact, begin, begin, -(begin as int));
    CountSpliceFree(copy, 0);
    if FetchCount(copy) > 0 {
      CompactionPreservesMeaning(log, attrs, begin, begin, FetchCount(copy) - 1, NAME);
      CountSpliceFree(copy, FetchCount(copy) - 1);
      assert false;
    }
  }

  /** A tag whose id is in range for the entries before it. */
  predicate InRange(dir: seq<Entry>, r: Rec) {
    && ValidRec(r)
    && (r.tag.typ == TYPE_CREATE ==> r.tag.id <= |dir|)
    && (r.tag.typ == TYPE_DELETE || r.tag.IsFileAttr() ==> r.tag.id < |dir|)
  }

  /** Appending a tag in range applies it to the entries and keeps the log sound. */
  lemma AppendOne(log: seq<Rec>, r: Rec)
    requires InRange(Replay(log), r)
    ensures Replay(log + [r]) == Apply(Replay(log), r)
    ensures Sound(log) && |Apply(Replay(log), r)| <= MAX_ENTRIES ==> Sound(log + [r])
  {
    assert (log + [r])[..|log + [r]| - 1] == log;
    ApplyLength(Replay(log), r);
  }

  lemma SoundSize(log: seq<Rec>)
    ensures Sound(log) ==> |Replay(log)| <= MAX_ENTRIES
  {
  }

  lemma {:induction false} AppendBatch(log: seq<Rec>, attrs: seq<Attr>, id: nat)
    requires id < |Replay(log)| && id < ID_NONE
    requires forall k :: 0 <= k < |attrs| ==> ValidBatchAttr(FROM_MOVE, attrs[k])
    ensures Replay(log + BatchRecs(attrs, id)) == Replay(log)[id := Replay(log)[id] + attrs]
    ensures Sound(log) ==> Sound(log + BatchRecs(attrs, id))
    decreases |attrs|
  {
    hide Replay, Sound;
    var dir := Replay(log);
    SoundSize(log);
    if attrs == [] {
      assert log + BatchRecs(attrs, id) == log;
      assert dir[id] + attrs == dir[id];
    } else {
      var n := |attrs| - 1;
      assert ValidBatchAttr(FROM_MOVE, attrs[n]);
      var front, r := BatchRecs(attrs[..n], id), Rec(Tag(attrs[n].typ, id, attrs[n].size), attrs[n].data);
      AppendBatch(log, attrs[..n], id);
      assert BatchRecs(attrs, id) == front + [r];
      assert log + BatchRecs(attrs, id) == (log + front) + [r];
      AppendOne(log + front, r);
      assert attrs == attrs[..n] + [attrs[n]];
      assert dir[id] + attrs[..n] + [attrs[n]] == dir[id] + attrs;
    }
  }

  // ---------------------------------------------------------------- good directories

  /** What every directory log on disk satisfies. */
  predicate GoodDir(log: seq<Rec>) {
    OnDisk(log) && Named(Replay(log)) && Sound(log)
  }

  lemma OnDiskValid(log: seq<Rec>)
    requires OnDisk(log)
    ensures ValidLog(log)
  {
    ExpandValid(Plain(log));
    ExpandPlain(log);
  }

  predicate PlainRecs(log: seq<Rec>) {
    forall k :: 0 <= k < |log| ==> IsPlain(Mattr(log[k].tag, Bytes(log[k].data)))
  }

  lemma {:induction false} ExpandPlainRecs(items: seq<Mattr>)
    requires ValidItems(items)
    ensures PlainRecs(Expand(items))
    decreases |items|
  {
    if items != [] {
      var m := items[0];
      ExpandPlainRecs(items[1..]);
      if m.buf.Batch? {
        assert forall k :: 0 <= k < |m.buf.attrs| ==> ValidBatchAttr(m.tag.typ, m.buf.attrs[k]);
      }
    }
  }

  lemma {:induction false} TraversePlainRecs(items: seq<Mattr>, sel: Sel, begin: nat, end: nat, diff: int)
    requires ValidItems(items) && 0 <= begin + diff && end + diff <= ID_NONE
    ensures PlainRecs(Traverse(items, sel, begin, end, diff))
    decreases |items|
  {
    hide Filtered, Back, Expand, Replay;
    if items != [] {
      var m := items[0];
      TraversePlainRecs(items[1..], sel, begin, end, diff);
      if sel.Picks(m.tag.typ) {
        FilterFollows(items[1..], m.tag, 0);
        if m.buf.Batch? {
          assert forall k :: 0 <= k < |m.buf.attrs| ==> ValidBatchAttr(m.tag.typ, m.buf.attrs[k]);
        }
      }
    }
  }

  lemma PlainRecsOnDisk(log: seq<Rec>)
    requires PlainRecs(log)
    ensures OnDisk(log + [CLOSE])
  {
    var items := Plain(log + [CLOSE]);
    forall k | 0 <= k < |items|
      ensures IsPlain(items[k])
    {
      if k < |log| {
        assert items[k] == Mattr(log[k].tag, Bytes(log[k].data));
      }
    }
  }

  /** What a split or a compaction writes for a range of ids. */
  function RangeLog(log: seq<Rec>, attrs: seq<Mattr>, begin: nat, end: nat): seq<Rec> {
    Compacted(log, attrs, begin, end) + [CLOSE]
  }

  /** Any part of a compacted directory is a good directory with exactly that part of the listing,
      and a fetch counts as many entries as the compaction reported. */
  lemma RangeGood(log: seq<Rec>, attrs: seq<Mattr>, begin: nat, end: nat)
    requires ValidCommit(log, attrs) && Named(Replay(log + Expand(attrs)))
    requires begin <= end <= |Replay(log + Expand(attrs))|
    ensures GoodDir(RangeLog(log, attrs, begin, end))
    ensures Listing(RangeLog(log, attrs, begin, end)) == Listing(log + Expand(attrs))[begin..end]
    ensures FetchCount(RangeLog(log, attrs, begin, end)) == end - begin
  {
    hide Replay, Expand, ValidCommit, OnDisk, Slot, FetchCount, Traverse, WellFormed;
    var copy := Compacted(log, attrs, begin, end);
    RangeListing(log, attrs, begin, end);
    RangeLength(log, attrs, begin, end);
    RangeCounted(log, attrs, begin, end);
    CloseShowsNothing(copy);
    CompactionPreservesMeaning(log, attrs, begin, end, 0, NAME);
    SpliceFreeSound(copy);
    CloseSound(copy);
    CompactOnDisk(log, attrs, begin, end);
    NamedPart(log + Expand(attrs), begin, end, RangeLog(log, attrs, begin, end));
  }

  lemma CompactOnDisk(log: seq<Rec>, attrs: seq<Mattr>, begin: nat, end: nat)
    requires ValidCommit(log, attrs) && begin <= end <= ID_NONE
    ensures OnDisk(RangeLog(log, attrs, begin, end))
  {
    hide Traverse, OnDisk;
    TraversePlainRecs(Plain(log) + attrs, ForCompact, begin, end, -(begin as int));
    PlainRecsOnDisk(Compacted(log, attrs, begin, end));
  }

  lemma SpliceFreeSound(log: seq<Rec>)
    requires ValidLog(log) && SpliceFree(log) && |Replay(log)| <= MAX_ENTRIES
    ensures WellFormed(log)
  {
  }

  lemma CloseSound(log: seq<Rec>)
    ensures Sound(log) ==> Sound(log + [CLOSE])
  {
    CloseShowsNothing(log);
    AppendOne(log, CLOSE);
  }

  lemma NamedPart(a: seq<Rec>, begin: nat, end: nat, b: seq<Rec>)
    requires Named(Replay(a)) && begin <= end <= |Replay(a)| && Listing(b) == Listing(a)[begin..end]
    ensures Named(Replay(b))
  {
    forall i | 0 <= i < |Replay(b)|
      ensures Slot(Replay(b)[i], NAME).Some?
    {
      assert NAME in Listing(a)[begin + i];
      assert NAME in Listing(b)[i];
    }
  }

  /** Splitting at any point: the two halves, one after the other, list the whole, and both are
      good directories. */
  lemma SplitListings(log: seq<Rec>, attrs: seq<Mattr>, split: nat)
    requires ValidCommit(log, attrs) && Named(Replay(log + Expand(attrs))) && split <= |Replay(log + Expand(attrs))|
    ensures var n := |Replay(log + Expand(attrs))|;
            var head, tail := RangeLog(log, attrs, 0, split), RangeLog(log, attrs, split, n);
            && GoodDir(head) && GoodDir(tail)
            && |Listing(head)| == split
            && Listing(head) + Listing(tail) == Listing(log + Expand(attrs))
  {
    hide Replay, Expand, ValidCommit, GoodDir, RangeLog, Named;
    var list := Listing(log + Expand(attrs));
    RangeGood(log, attrs, 0, split);
    RangeGood(log, attrs, split, |list|);
    assert list == list[0..split] + list[split..|list|];
  }

  /** A commit that leaves a directory good. */
  predicate GoodCommit(log: seq<Rec>, attrs: seq<Mattr>) {
    ValidCommit(log, attrs) && Named(Replay(log + Expand(attrs))) && Sound(log + Expand(attrs))
  }

  /** Both ways of committing keep a directory good and lead to the same listing. */
  lemma CommitGood(log: seq<Rec>, attrs: seq<Mattr>, compact: bool)
    requires GoodCommit(log, attrs)
    ensures GoodDir(CommitLog(log, attrs, compact))
    ensures Listing(CommitLog(log, attrs, compact)) == Listing(log + Expand(attrs))
  {
    hide Replay, Expand, ValidCommit, OnDisk, Slot, Sound;
    EitherPath(log, attrs, compact);
    var list := Listing(log + Expand(attrs));
    if compact {
      RangeGood(log, attrs, 0, |list|);
    } else {
      CloseSound(log + Expand(attrs));
      AppendOnDisk(log, attrs);
      assert list[0..|list|] == list;
      NamedPart(log + Expand(attrs), 0, |list|, CommitLog(log, attrs, compact));
    }
  }

  lemma AppendOnDisk(log: seq<Rec>, attrs: seq<Mattr>)
    requires ValidCommit(log, attrs)
    ensures OnDisk(CommitLog(log, attrs, false))
  {
    hide Replay, OnDisk;
    var items := Plain(log) + attrs;
    ExpandPlainRecs(items);
    ExpandConcat(Plain(log), attrs);
    ExpandPlain(log);
    PlainRecsOnDisk(log + Expand(attrs));
  }

  /** On every good directory, and after every commit to one, walking back keeps ids in range. */
  lemma GoodDirWalks(log: seq<Rec>, id: nat)
    requires GoodDir(log) && id <= |Listing(log)| + 1
    ensures WalkFits(log, id)
  {
    WellFormedWalkFits(log, id);
  }

  /** A new directory, before and after it is first written. */
  lemma EmptyGood()
    ensures GoodDir([]) && Replay([]) == []
    ensures GoodDir([CLOSE]) && Listing([CLOSE]) == []
  {
    assert Replay([]) == [] && FetchCount([]) == 0;
    assert [] + [CLOSE] == [CLOSE];
    CloseShowsNothing([]);
    CloseSound([]);
    PlainRecsOnDisk([]);
  }

  /** The first commit to a formatted filesystem: the superblock's entry. */
  const SUPERBLOCK := Attr(0x0ff, 8, [108, 105, 116, 116, 108, 101, 102, 115])

  function FormatAttrs(superblock: Attr): seq<Mattr> {
    [Create(0), Mattr(Tag(SUPERBLOCK.typ, 0, 8), Bytes(SUPERBLOCK.data)),
        Mattr(Tag(0x201, 0, superblock.size), Bytes(superblock.data))]
  }

  lemma FormatGood(superblock: Attr)
    requires superblock.typ == 0x201 && superblock.size < SIZE_REMOVED
    ensures GoodCommit([], FormatAttrs(superblock))
    ensures Replay([] + Expand(FormatAttrs(superblock))) == [[SUPERBLOCK, superblock]]
  {
    hide Replay, Sound, Expand;
    var attrs := FormatAttrs(superblock);
    var c, n, s := Rec(Tag(TYPE_CREATE, 0, 0), []), Rec(Tag(SUPERBLOCK.typ, 0, 8), SUPERBLOCK.data),
        Rec(Tag(0x201, 0, superblock.size), superblock.data);
    EmptyGood();
    CreateNamed([], 0, SUPERBLOCK);
    var made := [] + [c] + [n];
    assert InsertAt([], 0, [SUPERBLOCK]) == [[SUPERBLOCK]];
    assert Replay(made) == [[SUPERBLOCK]];
    AppendOne(made, s);
    assert Apply([[SUPERBLOCK]], s) == [[SUPERBLOCK] + [superblock]];
    ExpandThree(attrs[0], attrs[1], attrs[2]);
    assert attrs == [attrs[0], attrs[1], attrs[2]];
    assert [] + Expand(attrs) == made + [s];
    assert [SUPERBLOCK] + [superblock] == [SUPERBLOCK, superblock];
    assert Replay(made + [s]) == [[SUPERBLOCK, superblock]];
    assert Plain([]) + attrs == attrs;
    assert ValidCommit([], attrs);
    SuperblockNamed(superblock);
  }

  lemma SuperblockNamed(superblock: Attr)
    requires superblock.typ == 0x201
    ensures Slot([SUPERBLOCK, superblock], NAME) == Some(SUPERBLOCK)
  {
    var e := [SUPERBLOCK, superblock];
    assert e[..1] == [SUPERBLOCK] && e[..1][..0] == [];
    assert FindSlot(e, NAME) == FindSlot(e[..1], NAME);
  }

  lemma ExpandThree(a: Mattr, b: Mattr, c: Mattr)
    ensures Expand([a, b, c]) == ExpandOne(a) + ExpandOne(b) + ExpandOne(c)
  {
    hide Expand, ExpandOne;
    assert [a, b, c] == [a] + [b] + [c];
    ExpandConcat([a] + [b], [c]);
    ExpandConcat([a], [b]);
    ExpandSingle(a);
    ExpandSingle(b);
    ExpandSingle(c);
  }

  // ---------------------------------------------------------------- deleting and moving

  function Delete(id: nat): Mattr {
    Mattr(Tag(TYPE_DELETE, id, 0), Bytes([]))
  }

  function Create(id: nat): Mattr {
    Mattr(Tag(TYPE_CREATE, id, 0), Bytes([]))
  }

  const NOOP := Mattr(Tag(FROM_NOOP, 0, 0), Nothing)

  lemma ViewsRemove(dir: seq<Entry>, id: nat)
    requires id < |dir|
    ensures Views(dir[..id] + dir[id + 1..]) == RemoveAt(Views(dir), id)
  {
  }

  lemma DeleteGood(log: seq<Rec>, id: nat)
    requires GoodDir(log) && id < |Listing(log)|
    ensures GoodCommit(log, [Delete(id)])
    ensures Listing(log + Expand([Delete(id)])) == RemoveAt(Listing(log), id)
  {
    var attrs := [Delete(id)];
    assert attrs[1..] == [] && Expand(attrs) == [Rec(Tag(TYPE_DELETE, id, 0), [])];
    OnDiskValid(log);
    AppendOne(log, Expand(attrs)[0]);
    ViewsRemove(Replay(log), id);
  }

  /** What lfs_setattr and lfs_removeattr commit: an attribute, or a tag of size 0x3ff in its
      place. */
  function AttrCommit(id: nat, typ: nat, value: Option<seq<bv8>>): seq<Mattr> {
    match value
    case None => [Mattr(Tag(typ, id, 0x3ff), Bytes([]))]
    case Some(data) => [Mattr(Tag(typ, id, |data|), Bytes(data))]
  }

  function Without(view: EntryView, typ: nat): EntryView {
    map t | t in view && t != typ :: view[t]
  }

  /** Setting or removing a user attribute changes that attribute of that entry in the listing, and
      nothing else. */
  lemma AttrCommitGood(log: seq<Rec>, id: nat, typ: nat, value: Option<seq<bv8>>, compact: bool)
    requires GoodDir(log) && id < |Listing(log)| && 0x300 <= typ < 0x400 && (value.Some? ==> |value.value| < 0x3ff)
    ensures GoodDir(CommitLog(log, AttrCommit(id, typ, value), compact))
    ensures var view := Listing(log)[id];
            Listing(CommitLog(log, AttrCommit(id, typ, value), compact)) ==
            Listing(log)[id := if value.None? then Without(view, typ)
                               else view[typ := Attr(typ, |value.value|, value.value)]]
  {
    hide OnDisk, Sound, CommitLog, Replay, ViewOf, Expand, ValidCommit, Slot, Named;
    var attrs := AttrCommit(id, typ, value);
    var r := Rec(attrs[0].tag, attrs[0].buf.data);
    ExpandSingle(attrs[0]);
    NamedSize(Replay(log));
    AttrReplay(log, r);
    AttrView(Replay(log)[id], AttrOf(r), typ);
    AttrNamed(Replay(log), id, AttrOf(r));
    ViewsAt(Replay(log), id, Replay(log)[id] + [AttrOf(r)]);
    AttrValid(log, attrs, typ);
    CommitGood(log, attrs, compact);
  }

  lemma NamedSize(dir: seq<Entry>)
    requires Named(dir)
    ensures |dir| <= MAX_ENTRIES
  {
  }

  lemma AttrReplay(log: seq<Rec>, r: Rec)
    requires Sound(log) && InRange(Replay(log), r) && r.tag.IsFileAttr()
    ensures Replay(log + [r]) == Replay(log)[r.tag.id := Replay(log)[r.tag.id] + [AttrOf(r)]] && Sound(log + [r])
  {
    hide Sound, Replay;
    SoundSize(log);
    AppendOne(log, r);
  }

  lemma AttrNamed(dir: seq<Entry>, id: nat, a: Attr)
    requires Named(dir) && id < |dir| && Slot(dir[id] + [a], NAME) == Slot(dir[id], NAME)
    ensures Named(dir[id := dir[id] + [a]])
  {
    hide Slot;
  }

  lemma ViewsAt(dir: seq<Entry>, id: nat, e: Entry)
    requires id < |dir|
    ensures Views(dir[id := e]) == Views(dir)[id := ViewOf(e)] && Views(dir)[id] == ViewOf(dir[id])
  {
    hide ViewOf;
  }

  lemma AttrValid(log: seq<Rec>, attrs: seq<Mattr>, typ: nat)
    requires OnDisk(log) && |attrs| == 1 && IsPlain(attrs[0])
    ensures ValidCommit(log, attrs)
  {
  }

  lemma AttrView(e: Entry, a: Attr, typ: nat)
    requires a.typ == typ && 0x300 <= typ < 0x400
    ensures ViewOf(e + [a]) ==
            if a.size == SIZE_REMOVED then Without(ViewOf(e), typ) else ViewOf(e)[typ := a]
    ensures Slot(e + [a], NAME) == Slot(e, NAME)
  {
    forall t: nat | t < 0x400 && IsSlot(t)
      ensures Slot(e + [a], t) == if t == typ then (if a.size == SIZE_REMOVED then None else Some(a)) else Slot(e, t)
    {
      FindLastSnoc(e, a, SlotMask(t), t);
    }
  }

  /** A commit without attributes, as for a new tail alone. */
  lemma NothingGood(log: seq<Rec>)
    requires GoodDir(log)
    ensures GoodCommit(log, []) && log + Expand([]) == log
  {
    assert log + Expand([]) == log && Plain(log) + [] == Plain(log);
    OnDiskValid(log);
  }

  /** Deleting an id takes that entry, and no other, out of the listing. */
  lemma DeleteCommit(log: seq<Rec>, id: nat, compact: bool)
    requires GoodDir(log) && id < |Listing(log)|
    ensures ValidCommit(log, [Delete(id)])
    ensures GoodDir(CommitLog(log, [Delete(id)], compact))
    ensures Listing(CommitLog(log, [Delete(id)], compact)) == RemoveAt(Listing(log), id)
  {
    DeleteGood(log, id);
    CommitGood(log, [Delete(id)], compact);
  }

  /** The name given to a file that is created or moved. */
  predicate ValidName(name: Attr) {
    0 < name.typ < 0x100 && name.size < SIZE_REMOVED
  }

  /** The attributes lfs_rename_ commits to the target directory. */
  function RenameAttrs(newid: nat, prev: bool, name: Attr, moved: seq<Attr>, after: Option<nat>): seq<Mattr> {
    [if prev then Delete(newid) else NOOP,
     Create(newid),
     Mattr(Tag(name.typ, newid, name.size), Bytes(name.data)),
     Mattr(Tag(FROM_MOVE, newid, 0), Batch(moved)),
     if after.Some? then Delete(after.value) else NOOP]
  }

  /** The entries before the final delete. */
  function Placed(dir: seq<Entry>, newid: nat, prev: bool, entry: Entry): seq<Entry>
    requires if prev then newid < |dir| else newid <= |dir|
  {
    if prev then dir[newid := entry] else InsertAt(dir, newid, entry)
  }

  lemma ExpandFive(a: Mattr, b: Mattr, c: Mattr, d: Mattr, e: Mattr)
    ensures Expand([a, b, c, d, e]) == ExpandOne(a) + ExpandOne(b) + ExpandOne(c) + ExpandOne(d) + ExpandOne(e)
  {
    hide Expand, ExpandOne;
    assert [a, b, c, d, e] == [a] + [b] + [c] + [d] + [e];
    ExpandConcat([a] + [b] + [c] + [d], [e]);
    ExpandConcat([a] + [b] + [c], [d]);
    ExpandConcat([a] + [b], [c]);
    ExpandConcat([a], [b]);
    ExpandSingle(a);
    ExpandSingle(b);
    ExpandSingle(c);
    ExpandSingle(d);
    ExpandSingle(e);
  }

  lemma ExpandRename(newid: nat, prev: bool, name: Attr, moved: seq<Attr>, after: Option<nat>)
    ensures Expand(RenameAttrs(newid, prev, name, moved, after)) ==
            (if prev then [Rec(Tag(TYPE_DELETE, newid, 0), [])] else [])
            + [Rec(Tag(TYPE_CREATE, newid, 0), [])]
            + [Rec(Tag(name.typ, newid, name.size), name.data)]
            + BatchRecs(moved, newid)
            + (if after.Some? then [Rec(Tag(TYPE_DELETE, after.value, 0), [])] else [])
  {
    hide Expand, BatchRecs;
    var a := RenameAttrs(newid, prev, name, moved, after);
    ExpandFive(a[0], a[1], a[2], a[3], a[4]);
    assert a == [a[0], a[1], a[2], a[3], a[4]];
  }

  lemma ExpandSingle(m: Mattr)
    ensures Expand([m]) == ExpandOne(m)
    ensures ExpandOne(m) == match m.buf
                            case Nothing => []
                            case Bytes(data) => [Rec(m.tag, data)]
                            case Batch(attrs) => BatchRecs(attrs, m.tag.id)
  {
    assert Expand([m]) == ExpandOne(m) + Expand([m][1..]);
    assert [m][1..] == [];
    assert ExpandOne(m) + [] == ExpandOne(m);
  }

  /** Creating an id and naming it inserts an entry with just that name. */
  lemma CreateNamed(log: seq<Rec>, id: nat, name: Attr)
    requires ValidName(name) && id < ID_NONE && id <= |Replay(log)|
    ensures var made := log + [Rec(Tag(TYPE_CREATE, id, 0), [])] + [Rec(Tag(name.typ, id, name.size), name.data)];
            && Replay(made) == InsertAt(Replay(log), id, [name])
            && (Sound(log) && |Replay(log)| < MAX_ENTRIES ==> Sound(made))
  {
    hide Replay, Sound;
    var c, r := Rec(Tag(TYPE_CREATE, id, 0), []), Rec(Tag(name.typ, id, name.size), name.data);
    AppendOne(log, c);
    AppendOne(log + [c], r);
    assert Replay(log + [c]) == InsertAt(Replay(log), id, []);
    assert [] + [AttrOf(r)] == [name];
  }

  /** What the target log replays to before the final delete. */
  lemma PlaceReplay(log: seq<Rec>, newid: nat, prev: bool, name: Attr, moved: seq<Attr>)
    requires ValidName(name) && newid < ID_NONE
    requires if prev then newid < |Replay(log)| else newid <= |Replay(log)|
    requires forall k :: 0 <= k < |moved| ==> ValidBatchAttr(FROM_MOVE, moved[k])
    ensures var full := log + Expand(RenameAttrs(newid, prev, name, moved, None));
            && Replay(full) == Placed(Replay(log), newid, prev, [name] + moved)
            && (Sound(log) && (prev || |Replay(log)| < MAX_ENTRIES) ==> Sound(full))
  {
    hide Replay, Sound, Expand, BatchRecs, RenameAttrs;
    ExpandRename(newid, prev, name, moved, None);
    SoundSize(log);
    var d := Rec(Tag(TYPE_DELETE, newid, 0), []);
    var l1 := log + if prev then [d] else [];
    if prev {
      AppendOne(log, d);
      assert Replay(l1) == RemoveAt(Replay(log), newid);
    } else {
      assert l1 == log;
    }
    CreateNamed(l1, newid, name);
    var l3 := l1 + [Rec(Tag(TYPE_CREATE, newid, 0), [])] + [Rec(Tag(name.typ, newid, name.size), name.data)];
    AppendBatch(l3, moved, newid);
    assert log + Expand(RenameAttrs(newid, prev, name, moved, None)) == l3 + BatchRecs(moved, newid);
    assert Replay(l3)[newid] == [name];
    assert Placed(Replay(log), newid, prev, [name] + moved) == Replay(l3)[newid := [name] + moved];
  }

  /** What the target log replays to. */
  lemma RenameReplay(log: seq<Rec>, newid: nat, prev: bool, name: Attr, moved: seq<Attr>, after: Option<nat>)
    requires ValidName(name) && newid < ID_NONE
    requires if prev then newid < |Replay(log)| else newid <= |Replay(log)|
    requires forall k :: 0 <= k < |moved| ==> ValidBatchAttr(FROM_MOVE, moved[k])
    requires after.Some? ==> after.value < |Placed(Replay(log), newid, prev, [name] + moved)| && after.value < ID_NONE
    ensures var full := log + Expand(RenameAttrs(newid, prev, name, moved, after));
            var placed := Placed(Replay(log), newid, prev, [name] + moved);
            && Replay(full) == (if after.Some? then RemoveAt(placed, after.value) else placed)
            && (Sound(log) && (prev || |Replay(log)| < MAX_ENTRIES) ==> Sound(full))
  {
    hide Replay, Sound, Expand, BatchRecs, RenameAttrs;
    PlaceReplay(log, newid, prev, name, moved);
    SoundSize(log);
    if after.Some? {
      ExpandRename(newid, prev, name, moved, None);
      ExpandRename(newid, prev, name, moved, after);
      var d := Rec(Tag(TYPE_DELETE, after.value, 0), []);
      var placed := log + Expand(RenameAttrs(newid, prev, name, moved, None));
      AppendOne(placed, d);
      assert log + Expand(RenameAttrs(newid, prev, name, moved, after)) == placed + [d];
    }
  }

  /** How a moved entry reads: the new name, and everything else as before. */
  function MovedView(entry: EntryView, name: Attr): EntryView {
    (map typ | typ in entry && typ != NAME :: entry[typ])[NAME := name]
  }

  lemma MovedReads(src: seq<Rec>, from: nat, name: Attr)
    requires OnDisk(src) && from < |Listing(src)| && from < ID_NONE && ValidName(name)
    ensures ViewOf([name] + MoveAttrs(src, from)) == MovedView(Listing(src)[from], name)
  {
    hide Replay, MoveAttrs;
    var moved := MoveAttrs(src, from);
    forall typ: nat | typ < 0x400 && IsSlot(typ)
      ensures Slot([name] + moved, typ) == if typ == NAME then Some(name) else Slot(Replay(src)[from], typ)
    {
      FindLastConcat([name], moved, SlotMask(typ), typ);
      FindSlotOne(name, typ);
      if typ == NAME {
        MoveCarries(src, from, STRUCT);
        NoNames(moved);
      } else {
        MoveCarries(src, from, typ);
      }
    }
  }

  lemma {:induction false} NoNames(attrs: seq<Attr>)
    requires forall k :: 0 <= k < |attrs| ==> ValidBatchAttr(FROM_MOVE, attrs[k])
    ensures FindSlot(attrs, NAME) == None
    decreases |attrs|
  {
    if attrs != [] {
      assert ValidBatchAttr(FROM_MOVE, attrs[|attrs| - 1]);
      NoNames(attrs[..|attrs| - 1]);
    }
  }

  lemma ViewsPlaced(dir: seq<Entry>, newid: nat, prev: bool, entry: Entry)
    requires if prev then newid < |dir| else newid <= |dir|
    ensures Views(Placed(dir, newid, prev, entry)) ==
            if prev then Views(dir)[newid := ViewOf(entry)] else InsertAt(Views(dir), newid, ViewOf(entry))
  {
  }

  /** The listing of the target directory after the rename's commit: the moved entry appears at
      `newid` (in place of the one it replaces, if any), and for a rename within one directory
      the old entry is gone. */
  function RenamedListing(v: seq<EntryView>, newid: nat, prev: bool, moved: EntryView,
        after: Option<nat>): seq<EntryView>
    requires if prev then newid < |v| else newid <= |v|
    requires after.Some? ==> after.value < |v| + if prev then 0 else 1
  {
    var placed := if prev then v[newid := moved] else InsertAt(v, newid, moved);
    if after.Some? then RemoveAt(placed, after.value) else placed
  }

  /** The rename's commit, given what it moves: it leaves the directory good. */
  lemma PlacedGood(log: seq<Rec>, newid: nat, prev: bool, name: Attr, moved: seq<Attr>, after: Option<nat>)
    requires GoodDir(log) && ValidName(name)
    requires if prev then newid < |Listing(log)| else newid <= |Listing(log)| < MAX_ENTRIES
    requires after.Some? ==> after.value < |Listing(log)| + if prev then 0 else 1
    requires forall k :: 0 <= k < |moved| ==> ValidBatchAttr(FROM_MOVE, moved[k])
    ensures GoodCommit(log, RenameAttrs(newid, prev, name, moved, after))
    ensures var placed := Placed(Replay(log), newid, prev, [name] + moved);
            Replay(log + Expand(RenameAttrs(newid, prev, name, moved, after))) ==
            if after.Some? then RemoveAt(placed, after.value) else placed
  {
    hide Replay, Expand, OnDisk, Sound, Slot, RenameAttrs;
    RenameReplay(log, newid, prev, name, moved, after);
    RenameValid(log, newid, prev, name, moved, after);
    NamedPlaced(Replay(log), newid, prev, name, moved, after);
  }

  lemma ViewsRenamed(dir: seq<Entry>, newid: nat, prev: bool, entry: Entry, after: Option<nat>)
    requires if prev then newid < |dir| else newid <= |dir|
    requires after.Some? ==> after.value < |dir| + if prev then 0 else 1
    ensures var placed := Placed(dir, newid, prev, entry);
            Views(if after.Some? then RemoveAt(placed, after.value) else placed) ==
            RenamedListing(Views(dir), newid, prev, ViewOf(entry), after)
  {
    hide ViewOf;
    ViewsPlaced(dir, newid, prev, entry);
    if after.Some? {
      ViewsRemove(Placed(dir, newid, prev, entry), after.value);
    }
  }

  lemma RenameGood(log: seq<Rec>, src: seq<Rec>, from: nat, newid: nat, prev: bool, name: Attr, after: Option<nat>)
    requires GoodDir(log) && GoodDir(src) && ValidName(name) && from < |Listing(src)|
    requires if prev then newid < |Listing(log)| else newid <= |Listing(log)| < MAX_ENTRIES
    requires after.Some? ==> after.value < |Listing(log)| + if prev then 0 else 1
    ensures var attrs := RenameAttrs(newid, prev, name, MoveAttrs(src, from), after);
            && GoodCommit(log, attrs)
            && Listing(log + Expand(attrs)) ==
               RenamedListing(Listing(log), newid, prev, MovedView(Listing(src)[from], name), after)
  {
    hide GoodDir, Replay, Expand, MoveAttrs, RenameAttrs, GoodCommit, Placed, RenamedListing, MovedView, ViewOf;
    var moved := MoveAttrs(src, from);
    GoodParts(src);
    MoveCarries(src, from, STRUCT);
    MovedReads(src, from, name);
    PlacedGood(log, newid, prev, name, moved, after);
    ViewsRenamed(Replay(log), newid, prev, [name] + moved, after);
  }

  lemma GoodParts(log: seq<Rec>)
    requires GoodDir(log)
    ensures OnDisk(log) && |Replay(log)| <= MAX_ENTRIES
  {
  }

  lemma RenameCommit(log: seq<Rec>, src: seq<Rec>, from: nat, newid: nat, prev: bool, name: Attr, after: Option<nat>,
        compact: bool)
    requires GoodDir(log) && GoodDir(src) && ValidName(name) && from < |Listing(src)|
    requires if prev then newid < |Listing(log)| else newid <= |Listing(log)| < MAX_ENTRIES
    requires after.Some? ==> after.value < |Listing(log)| + if prev then 0 else 1
    ensures var attrs := RenameAttrs(newid, prev, name, MoveAttrs(src, from), after);
            && ValidCommit(log, attrs)
            && GoodDir(CommitLog(log, attrs, compact))
            && Listing(CommitLog(log, attrs, compact)) ==
               RenamedListing(Listing(log), newid, prev, MovedView(Listing(src)[from], name), after)
  {
    hide Replay, Expand, OnDisk, Sound, MoveAttrs, CommitLog, RenamedListing, MovedView, RenameAttrs;
    RenameGood(log, src, from, newid, prev, name, after);
    CommitGood(log, RenameAttrs(newid, prev, name, MoveAttrs(src, from), after), compact);
  }

  lemma RenameValid(log: seq<Rec>, newid: nat, prev: bool, name: Attr, moved: seq<Attr>, after: Option<nat>)
    requires OnDisk(log) && ValidName(name) && newid < ID_NONE && (after.Some? ==> after.value < ID_NONE)
    requires forall k :: 0 <= k < |moved| ==> ValidBatchAttr(FROM_MOVE, moved[k])
    ensures ValidCommit(log, RenameAttrs(newid, prev, name, moved, after))
  {
  }

  lemma NamedPlaced(dir: seq<Entry>, newid: nat, prev: bool, name: Attr, moved: seq<Attr>, after: Option<nat>)
    requires Named(dir) && ValidName(name)
    requires if prev then newid < |dir| else newid <= |dir| < MAX_ENTRIES
    requires forall k :: 0 <= k < |moved| ==> ValidBatchAttr(FROM_MOVE, moved[k])
    requires after.Some? ==> after.value < |Placed(dir, newid, prev, [name] + moved)|
    ensures var placed := Placed(dir, newid, prev, [name] + moved);
            Named(if after.Some? then RemoveAt(placed, after.value) else placed)
  {
    hide Slot;
    MovedName(name, moved);
  }

  lemma MovedName(name: Attr, moved: seq<Attr>)
    requires ValidName(name) && forall k :: 0 <= k < |moved| ==> ValidBatchAttr(FROM_MOVE, moved[k])
    ensures Slot([name] + moved, NAME) == Some(name)
  {
    NoNames(moved);
    FindLastConcat([name], moved, Type1, NAME);
    FindSlotOne(name, NAME);
  }
}
