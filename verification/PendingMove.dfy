/** What lookups answer while a rename is only half done, and what a rename changes at all.

    Between the two commits of a rename, or after a power loss there, the global state names the
    entry to hide. lfs_dir_getslice hides it on the fly. Comparing its answers with those after
    lfs_fs_demove shows an off-by-one: the id of the moved entry itself is answered "no entry",
    although from then on the entry behind it has that id. */
module PendingMove {
  import opened MetaLog
  import opened Compaction
  import opened Directory
  import opened Filesystem

  /** What lfs_dir_getslice finds for an id while a move of id `m` is pending. */
  function PendingLookup(log: seq<Rec>, m: nat, id: nat, mask: Mask, typ: nat): Option<Attr> {
    match Synthetic(Some(m), id)
    case None => None
    case Some(p) => Lookup(At(Replay(log), p), mask, typ)
  }

  /** What it finds once the pending move was carried out. */
  function SettledLookup(log: seq<Rec>, m: nat, id: nat, mask: Mask, typ: nat): Option<Attr> {
    Lookup(At(Replay(log + [Rec(Tag(TYPE_DELETE, m, 0), [])]), id), mask, typ)
  }

  /** The two agree for every id but one, and for that one exactly when the entry behind the
      moved one has nothing to find. */
  lemma PendingAgreesIff(log: seq<Rec>, m: nat, id: nat, mask: Mask, typ: nat)
    requires ValidLog(log) && m < ID_NONE
    ensures PendingLookup(log, m, id, mask, typ) == SettledLookup(log, m, id, mask, typ) <==>
            (id != m || Lookup(At(Replay(log), m + 1), mask, typ) == None)
  {
    var d := Rec(Tag(TYPE_DELETE, m, 0), []);
    assert (log + [d])[..|log + [d]| - 1] == log;
    ApplyAt(Replay(log), d, id);
    var p := if m <= id then id + 1 else id;
    assert At(Replay(log), p) + [] == At(Replay(log), p);
  }

  const A := Attr(0x001, 1, [97])
  const B := Attr(0x001, 1, [98])

  /** The log of a directory in which files "a" and "b" were created. */
  const TWO_FILES: seq<Rec> := [
    Rec(Tag(TYPE_CREATE, 0, 0), []), Rec(Tag(A.typ, 0, A.size), A.data),
    Rec(Tag(TYPE_CREATE, 1, 0), []), Rec(Tag(B.typ, 1, B.size), B.data)]

  lemma TwoFilesReplay()
    ensures Replay(TWO_FILES) == [[A], [B]]
    ensures Replay(TWO_FILES + [Rec(Tag(TYPE_DELETE, 0, 0), [])]) == [[B]]
  {
    hide Replay;
    var first := [] + [Rec(Tag(TYPE_CREATE, 0, 0), [])] + [Rec(Tag(A.typ, 0, A.size), A.data)];
    ReplayNothing();
    CreateNamed([], 0, A);
    assert Replay(first) == [[A]];
    CreateNamed(first, 1, B);
    assert TWO_FILES == first + [Rec(Tag(TYPE_CREATE, 1, 0), [])] + [Rec(Tag(B.typ, 1, B.size), B.data)];
    assert Replay(TWO_FILES) == [[A], [B]];
    AppendOne(TWO_FILES, Rec(Tag(TYPE_DELETE, 0, 0), []));
  }

  lemma ReplayNothing()
    ensures Replay([]) == []
  {
  }

  /** With a pending move of "a", and until the move is carried out, no id at all leads to the
      name of "b". */
  lemma PendingHidesNeighbour()
    ensures SettledLookup(TWO_FILES, 0, 0, Type1, NAME) == Some(B)
    ensures forall id: nat :: PendingLookup(TWO_FILES, 0, id, Type1, NAME) == None
  {
    hide Replay;
    TwoFilesReplay();
    FindSlotOne(B, NAME);
    SlotEmpty(NAME);
  }

  // ---------------------------------------------------------------- nothing else changes

  lemma InsertCounts<T>(s: seq<T>, i: nat, x: T)
    requires i <= |s|
    ensures multiset(InsertAt(s, i, x)) == multiset(s) + multiset{x}
    ensures InsertAt(s, i, x)[i] == x
  {
    assert s == s[..i] + s[i..];
  }

  lemma RemoveCounts<T>(s: seq<T>, i: nat)
    requires i < |s|
    ensures multiset(RemoveAt(s, i)) + multiset{s[i]} == multiset(s)
  {
    assert s == s[..i] + [s[i]] + s[i + 1..];
  }

  lemma ReplaceCounts<T>(s: seq<T>, i: nat, x: T)
    requires i < |s|
    ensures multiset(s[i := x]) + multiset{s[i]} == multiset(s) + multiset{x}
  {
    RemoveCounts(s, i);
    RemoveCounts(s[i := x], i);
    assert RemoveAt(s[i := x], i) == RemoveAt(s, i);
  }

  /** What a rename takes away: the old entry, and the entry it replaces. */
  function Taken(v: seq<seq<EntryView>>, r: Rename): multiset<EntryView>
    requires r.Valid(v)
  {
    multiset{v[r.src][r.srcid]} + if r.prev then multiset{v[r.dst][r.dstid]} else multiset{}
  }

  /** A rename moves one entry and touches no other: source and target directories together hold
      what they held, except that the old entry (and one it replaces) gave way to the moved one,
      and all other directories are as they were. */
  lemma RenameMovesOneEntry(v: seq<seq<EntryView>>, r: Rename)
    requires r.Valid(v)
    ensures var after, moved := RenamedView(v, r), MovedView(v[r.src][r.srcid], r.name);
            && |after| == |v|
            && (forall i :: 0 <= i < |v| && i != r.src && i != r.dst ==> after[i] == v[i])
            && (if r.Samepair() then multiset(after[r.dst]) + Taken(v, r) == multiset(v[r.dst]) + multiset{moved}
                else multiset(after[r.src]) + multiset(after[r.dst]) + Taken(v, r)
                     == multiset(v[r.src]) + multiset(v[r.dst]) + multiset{moved})
            && moved in after[r.dst]
  {
    hide MovedView, RenamedListing, InsertAt, RemoveAt;
    var moved := MovedView(v[r.src][r.srcid], r.name);
    if r.Samepair() {
      ListingCounts(v[r.dst], r.dstid, r.prev, moved, Some(r.NewOldId()));
      if r.NewOldId() < r.dstid || r.prev {
        assert PlacedAt(v[r.dst], r.dstid, r.prev, moved, r.NewOldId()) == v[r.src][r.srcid];
      }
    } else {
      ListingCounts(v[r.dst], r.dstid, r.prev, moved, None);
      RemoveCounts(v[r.src], r.srcid);
      var left, gone := RemoveAt(v[r.src], r.srcid), multiset{v[r.src][r.srcid]};
      var placed := RenamedListing(v[r.dst], r.dstid, r.prev, moved, None);
      assert RenamedView(v, r)[r.src] == left && RenamedView(v, r)[r.dst] == placed;
      var over := if r.prev then multiset{v[r.dst][r.dstid]} else multiset{};
      assert Taken(v, r) == gone + over;
      assert multiset(placed) + over == multiset(v[r.dst]) + multiset{moved};
      SumCounts(multiset(left), multiset(placed), gone, over, multiset(v[r.src]), multiset(v[r.dst]) + multiset{moved});
    }
  }

  /** The entry at an id once the moved entry is in place. */
  function PlacedAt(v: seq<EntryView>, dstid: nat, prev: bool, moved: EntryView, i: nat): EntryView
    requires if prev then dstid < |v| else dstid <= |v|
    requires i < |v| + if prev then 0 else 1
  {
    if i == dstid then moved else if prev || i < dstid then v[i] else v[i - 1]
  }

  lemma ListingCounts(v: seq<EntryView>, dstid: nat, prev: bool, moved: EntryView, after: Option<nat>)
    requires if prev then dstid < |v| else dstid <= |v|
    requires after.Some? ==> after.value < |v| + (if prev then 0 else 1) && after.value != dstid
    ensures var l := RenamedListing(v, dstid, prev, moved, after);
            && moved in l
            && multiset(l) + (if prev then multiset{v[dstid]} else multiset{})
                 + (if after.Some? then multiset{PlacedAt(v, dstid, prev, moved, after.value)} else multiset{})
               == multiset(v) + multiset{moved}
  {
    hide InsertAt, RemoveAt, PlacedAt;
    var placed := if prev then v[dstid := moved] else InsertAt(v, dstid, moved);
    PlacedCounts(v, dstid, prev, moved);
    if after.Some? {
      LeftCounts(placed, after.value, dstid);
      var over := if prev then multiset{v[dstid]} else multiset{};
      AddCounts(multiset(RemoveAt(placed, after.value)), over, multiset{placed[after.value]}, multiset(placed));
    }
  }

  lemma SumCounts<T>(left: multiset<T>, placed: multiset<T>, gone: multiset<T>, over: multiset<T>, a: multiset<T>,
        b: multiset<T>)
    requires left + gone == a && placed + over == b
    ensures left + placed + (gone + over) == a + b
  {
  }

  lemma AddCounts<T>(left: multiset<T>, over: multiset<T>, gone: multiset<T>, all: multiset<T>)
    requires left + gone == all
    ensures left + over + gone == all + over
  {
  }

  lemma PlacedCounts(v: seq<EntryView>, dstid: nat, prev: bool, moved: EntryView)
    requires if prev then dstid < |v| else dstid <= |v|
    ensures var placed := if prev then v[dstid := moved] else InsertAt(v, dstid, moved);
            && |placed| == |v| + (if prev then 0 else 1) && placed[dstid] == moved && moved in placed
            && multiset(placed) + (if prev then multiset{v[dstid]} else multiset{}) == multiset(v) + multiset{moved}
            && forall i :: 0 <= i < |placed| ==> placed[i] == PlacedAt(v, dstid, prev, moved, i)
  {
    var placed := if prev then v[dstid := moved] else InsertAt(v, dstid, moved);
    if prev {
      ReplaceCounts(v, dstid, moved);
    } else {
      InsertCounts(v, dstid, moved);
    }
    assert placed[dstid] == moved;
  }

  lemma LeftCounts(placed: seq<EntryView>, i: nat, k: nat)
    requires i < |placed| && k < |placed| && i != k
    ensures multiset(RemoveAt(placed, i)) + multiset{placed[i]} == multiset(placed) && placed[k] in RemoveAt(placed, i)
  {
    RemoveCounts(placed, i);
    assert RemoveAt(placed, i)[if k < i then k else k - 1] == placed[k];
  }
}
