/** Reading a directory while it changes.

    A directory is a chain of metadata pairs with numbered entries. An open directory remembers a
    pair and the number of the entry to read next; every commit to a pair fixes up the open
    directories on it. The module proves that a reader gets every entry that exists all the time
    exactly once, however entries are created and deleted and pairs are split and dropped in the
    meantime, unless it reads past an entry whose move is pending: then, and only then, it misses
    the entry behind that one. */
module DirCursor {
  import M = MetaLog

  /** A directory entry. Hidden ones have no name to show: the superblock, and an entry that a
      pending move is about to take away. */
  datatype Entry = Entry(name: string, isDir: bool, hidden: bool)

  type Layout = seq<seq<Entry>>

  function Flatten(pairs: Layout): seq<Entry> {
    if pairs == [] then [] else pairs[0] + Flatten(pairs[1..])
  }

  lemma {:induction false} FlattenConcat(a: Layout, b: Layout)
    ensures Flatten(a + b) == Flatten(a) + Flatten(b)
  {
    if a == [] {
      assert a + b == b;
    } else {
      assert (a + b)[1..] == a[1..] + b;
      FlattenConcat(a[1..], b);
    }
  }

  lemma FlattenOne(pair: seq<Entry>)
    ensures Flatten([pair]) == pair
  {
    assert Flatten([pair]) == pair + Flatten([]);
  }

  lemma AroundOne<T>(s: seq<T>, k: nat)
    requires k < |s|
    ensures s == s[..k] + [s[k]] + s[k + 1..] && s[..k + 1] == s[..k] + [s[k]]
  {
  }

  lemma FlattenAt(pairs: Layout, k: nat)
    requires k < |pairs|
    ensures Flatten(pairs) == Flatten(pairs[..k]) + pairs[k] + Flatten(pairs[k + 1..])
    ensures Flatten(pairs[..k + 1]) == Flatten(pairs[..k]) + pairs[k]
  {
    hide Flatten;
    AroundOne(pairs, k);
    FlattenOne(pairs[k]);
    FlattenConcat(pairs[..k], [pairs[k]]);
    FlattenConcat(pairs[..k] + [pairs[k]], pairs[k + 1..]);
  }

  // ---------------------------------------------------------------- what a reader must not miss

  /** The reader is at place g of the listing: it passed the entries before that place as often as
      they are there, and each of the entries that matter is there once. */
  ghost predicate Tracks(list: seq<Entry>, g: nat, passed: seq<Entry>, stable: set<Entry>) {
    && g <= |list|
    && forall e :: e in stable ==>
         !e.hidden && multiset(list)[e] == 1 && multiset(passed)[e] == multiset(list[..g])[e]
  }

  function Insert(list: seq<Entry>, c: nat, e: Entry): seq<Entry>
    requires c <= |list|
  {
    list[..c] + [e] + list[c..]
  }

  function Remove(list: seq<Entry>, c: nat): seq<Entry>
    requires c < |list|
  {
    list[..c] + list[c + 1..]
  }

  /** Creating an entry before the reader moves the reader along; at the reader, either way will
      do. */
  lemma InsertTracks(list: seq<Entry>, g: nat, passed: seq<Entry>, stable: set<Entry>, c: nat, e: Entry, g': nat)
    requires Tracks(list, g, passed, stable) && c <= |list| && e !in list
    requires (g' == g + 1 && c <= g) || (g' == g && c >= g)
    ensures Tracks(Insert(list, c, e), g', passed, stable)
  {
    var after := Insert(list, c, e);
    assert list == list[..c] + list[c..];
    assert multiset(list)[e] == 0;
    if g' == g + 1 {
      assert after[..g'] == list[..c] + [e] + list[c..g];
      assert list[..g] == list[..c] + list[c..g];
    } else {
      assert after[..g'] == list[..g];
    }
  }

  /** Deleting an entry before the reader moves the reader back. */
  lemma RemoveTracks(list: seq<Entry>, g: nat, passed: seq<Entry>, stable: set<Entry>, c: nat, g': nat)
    requires Tracks(list, g, passed, stable) && c < |list|
    requires g' == if c < g then g - 1 else g
    ensures Tracks(Remove(list, c), g', passed, stable - {list[c]})
  {
    var after := Remove(list, c);
    assert list == list[..c] + [list[c]] + list[c + 1..];
    if c < g {
      assert after[..g'] == list[..c] + list[c + 1..g];
      assert list[..g] == list[..c] + [list[c]] + list[c + 1..g];
    } else {
      assert after[..g'] == list[..g];
    }
  }

  lemma ReadTracks(list: seq<Entry>, g: nat, passed: seq<Entry>, stable: set<Entry>)
    requires Tracks(list, g, passed, stable) && g < |list|
    ensures Tracks(list, g + 1, if list[g].hidden then passed else passed + [list[g]], stable)
  {
    assert list[..g + 1] == list[..g] + [list[g]];
  }

  // ---------------------------------------------------------------- commits

  /** What a commit does to the numbering of entries. */
  datatype Attr = Create(id: nat, entry: Entry) | Delete(id: nat) | Other

  predicate Fits(entries: seq<Entry>, a: Attr) {
    match a
    case Create(id, _) => id <= |entries|
    case Delete(id) => id < |entries|
    case Other => true
  }

  function Apply(entries: seq<Entry>, a: Attr): seq<Entry>
    requires Fits(entries, a)
  {
    match a
    case Create(id, e) => Insert(entries, id, e)
    case Delete(id) => Remove(entries, id)
    case Other => entries
  }

  /** A commit's attributes one after the other; an entry is created only where no entry of the
      directory (`others` are those in other pairs) is the same. */
  predicate FitsAll(entries: seq<Entry>, attrs: seq<Attr>, others: seq<Entry>)
    decreases |attrs|
  {
    attrs == [] ||
    (&& Fits(entries, attrs[0])
     && (attrs[0].Create? ==> attrs[0].entry !in entries && attrs[0].entry !in others)
     && FitsAll(Apply(entries, attrs[0]), attrs[1..], others))
  }

  function ApplyAll(entries: seq<Entry>, attrs: seq<Attr>, others: seq<Entry>): seq<Entry>
    requires FitsAll(entries, attrs, others)
    decreases |attrs|
  {
    if attrs == [] then entries else ApplyAll(Apply(entries, attrs[0]), attrs[1..], others)
  }

  /** The entries a commit deletes. */
  function Deleted(entries: seq<Entry>, attrs: seq<Attr>, others: seq<Entry>): set<Entry>
    requires FitsAll(entries, attrs, others)
    decreases |attrs|
  {
    if attrs == [] then {}
    else DeletedBy(entries, attrs[0]) + Deleted(Apply(entries, attrs[0]), attrs[1..], others)
  }

  lemma InsertIn(pre: seq<Entry>, entries: seq<Entry>, post: seq<Entry>, id: nat, e: Entry)
    requires id <= |entries|
    ensures Insert(pre + entries + post, |pre| + id, e) == pre + Insert(entries, id, e) + post
  {
  }

  lemma RemoveIn(pre: seq<Entry>, entries: seq<Entry>, post: seq<Entry>, id: nat)
    requires id < |entries|
    ensures Remove(pre + entries + post, |pre| + id) == pre + Remove(entries, id) + post
    ensures (pre + entries + post)[|pre| + id] == entries[id]
  {
  }

  function DeletedBy(entries: seq<Entry>, a: Attr): set<Entry>
    requires Fits(entries, a)
  {
    if a.Delete? then {entries[a.id]} else {}
  }

  /** One attribute, seen in the whole listing, with the reader in this pair, before it or behind
      it. */
  lemma AttrTracks(pre: seq<Entry>, entries: seq<Entry>, post: seq<Entry>, a: Attr, g: nat, g': int,
      passed: seq<Entry>, stable: set<Entry>)
    requires Fits(entries, a) && (a.Create? ==> a.entry !in pre && a.entry !in post && a.entry !in entries)
    requires Tracks(pre + entries + post, g, passed, stable)
    requires match a
             case Create(id, _) => (g' == g + 1 && |pre| + id <= g) || (g' == g && |pre| + id >= g)
             case Delete(id) => g' == if |pre| + id < g then g - 1 else g
             case Other => g' == g
    ensures g' >= 0 && Tracks(pre + Apply(entries, a) + post, g', passed, stable - DeletedBy(entries, a))
  {
    hide Tracks, Insert, Remove;
    assert !a.Delete? ==> stable - DeletedBy(entries, a) == stable;
    match a
    case Create(id, e) =>
      InsertIn(pre, entries, post, id, e);
      InsertTracks(pre + entries + post, g, passed, stable, |pre| + id, e, g');
    case Delete(id) =>
      RemoveIn(pre, entries, post, id);
      RemoveTracks(pre + entries + post, g, passed, stable, |pre| + id, g');
    case Other =>
  }

  /** How a commit's attribute changes the number and position an open directory on the pair is
      at. */
  function Fix(id: nat, pos: int, a: Attr): (nat, int) {
    if a.Delete? && id > a.id then (id - 1, pos - 1)
    else if a.Create? && id >= a.id then (id + 1, pos + 1)
    else (id, pos)
  }

  function FixEach(id: nat, pos: int, attrs: seq<Attr>): (nat, int)
    decreases |attrs|
  {
    if attrs == [] then (id, pos) else var (nid, npos) := Fix(id, pos, attrs[0]); FixEach(nid, npos, attrs[1..])
  }

  function StepFront(front: seq<Entry>, a: Attr): seq<Entry> {
    match a
    case Create(id, e) => if id <= |front| then Insert(front, id, e) else front
    case Delete(id) => if id < |front| then Remove(front, id) else front
    case Other => front
  }

  /** What is in front of a reader after some commits: what was created in front of it and not
      deleted again. */
  function Front(front: seq<Entry>, attrs: seq<Attr>): seq<Entry>
    decreases |attrs|
  {
    if attrs == [] then front else Front(StepFront(front, attrs[0]), attrs[1..])
  }

  function StepRest(front: seq<Entry>, rest: seq<Entry>, a: Attr): seq<Entry>
    requires Fits(front + rest, a)
  {
    match a
    case Create(id, e) => if id <= |front| then rest else Insert(rest, id - |front|, e)
    case Delete(id) => if id < |front| then rest else Remove(rest, id - |front|)
    case Other => rest
  }

  lemma StepParts(front: seq<Entry>, rest: seq<Entry>, pos: int, a: Attr)
    requires Fits(front + rest, a)
    ensures Apply(front + rest, a) == StepFront(front, a) + StepRest(front, rest, a)
    ensures Fix(|front|, pos, a) == (|StepFront(front, a)|, pos + |StepFront(front, a)| - |front|)
  {
    hide Insert, Remove;
    match a
    case Create(id, e) => InsertParts(front, rest, id, e);
    case Delete(id) => RemoveParts(front, rest, id);
    case Other =>
  }

  lemma InsertParts(front: seq<Entry>, rest: seq<Entry>, id: nat, e: Entry)
    requires id <= |front + rest|
    ensures Insert(front + rest, id, e) == if id <= |front| then Insert(front, id, e) + rest
            else front + Insert(rest, id - |front|, e)
    ensures id <= |front| ==> |Insert(front, id, e)| == |front| + 1
  {
  }

  lemma RemoveParts(front: seq<Entry>, rest: seq<Entry>, id: nat)
    requires id < |front + rest|
    ensures Remove(front + rest, id) == if id < |front| then Remove(front, id) + rest
            else front + Remove(rest, id - |front|)
    ensures id < |front| ==> |Remove(front, id)| == |front| - 1
  {
  }

  /** However commits follow each other, the reader stays right behind what is in front of it, and
      its position changes as its number does. */
  lemma {:induction false} FixCountsFront(front: seq<Entry>, rest: seq<Entry>, pos: int, attrs: seq<Attr>,
        others: seq<Entry>)
    requires FitsAll(front + rest, attrs, others)
    ensures FixEach(|front|, pos, attrs) == (|Front(front, attrs)|, pos + |Front(front, attrs)| - |front|)
    ensures Front(front, attrs) <= ApplyAll(front + rest, attrs, others)
    decreases |attrs|
  {
    hide Apply, Fix, StepFront, StepRest;
    if attrs == [] {
      assert front <= front + rest;
    } else {
      StepParts(front, rest, pos, attrs[0]);
      var next := StepFront(front, attrs[0]);
      FixCountsFront(next, StepRest(front, rest, attrs[0]), pos + |next| - |front|, attrs[1..], others);
    }
  }

  lemma {:induction false} FrontWasCreated(front: seq<Entry>, attrs: seq<Attr>, e: Entry)
    requires e in Front(front, attrs)
    ensures e in front || exists i :: 0 <= i < |attrs| && attrs[i].Create? && attrs[i].entry == e
    decreases |attrs|
  {
    if attrs != [] {
      var a := attrs[0];
      var next := StepFront(front, a);
      FrontWasCreated(next, attrs[1..], e);
      if e !in next {
        var i :| 0 <= i < |attrs[1..]| && attrs[1..][i].Create? && attrs[1..][i].entry == e;
        assert attrs[i + 1] == attrs[1..][i];
      }
    }
  }

  /** Commits to the pair of a reader that was not read from yet, as long as none of them splits it:
      the position is the number of entries that were created in front of the reader and are still
      there. */
  lemma DotInOnePair(entries: seq<Entry>, attrs: seq<Attr>, others: seq<Entry>)
    requires FitsAll(entries, attrs, others)
    ensures var n := |Front([], attrs)|;
            && FixEach(0, 0, attrs) == (n, n)
            && Front([], attrs) <= ApplyAll(entries, attrs, others)
            && forall e :: e in Front([], attrs) ==>
                exists i :: 0 <= i < |attrs| && attrs[i].Create? && attrs[i].entry == e
    ensures FixEach(0, 0, attrs).1 == 0 <==> Front([], attrs) == []
  {
    assert [] + entries == entries;
    FixCountsFront([], entries, 0, attrs, others);
    forall e | e in Front([], attrs)
      ensures exists i :: 0 <= i < |attrs| && attrs[i].Create? && attrs[i].entry == e
    {
      FrontWasCreated([], attrs, e);
    }
  }

  /** A created entry loses ".", a second one "..", and a created one that is gone again nothing. */
  lemma DotsAreLost(e: Entry, f: Entry)
    requires e != f
    ensures FitsAll([], [Create(0, e), Create(0, f)], []) && FixEach(0, 0, [Create(0, e), Create(0, f)]) == (2, 2)
    ensures FitsAll([], [Create(0, e)], []) && FixEach(0, 0, [Create(0, e)]) == (1, 1)
    ensures FitsAll([], [Create(0, e), Delete(0)], []) && FixEach(0, 0, [Create(0, e), Delete(0)]) == (0, 0)
  {
    assert [Create(0, e), Create(0, f)][1..] == [Create(0, f)] && [Create(0, f)][1..] == [];
    assert [Create(0, e), Delete(0)][1..] == [Delete(0)] && [Delete(0)][1..] == [] && [Create(0, e)][1..] == [];
    assert Insert([], 0, e) == [e];
    assert FixEach(0, 0, [Create(0, e), Create(0, f)]) == FixEach(1, 1, [Create(0, f)]) == FixEach(2, 2, []);
    assert FixEach(0, 0, [Create(0, e), Delete(0)]) == FixEach(1, 1, [Delete(0)]) == FixEach(0, 0, []);
  }

  /** Where a reader at place g stands, relative to the pair a commit goes to. */
  datatype Where = Before | Here | Behind

  ghost predicate Stands(w: Where, pre: seq<Entry>, entries: seq<Entry>, g: nat, id: nat) {
    match w
    case Before => g <= |pre|
    case Here => g == |pre| + id && id <= |entries|
    case Behind => g >= |pre| + |entries|
  }

  /** The loop over a commit's attributes that fixes up an open directory. */
  method FixAll(entries0: seq<Entry>, attrs: seq<Attr>, id0: nat, pos0: int, here: bool,
      ghost w: Where, ghost pre: seq<Entry>, ghost post: seq<Entry>, ghost g0: nat, ghost passed: seq<Entry>,
            ghost stable0: set<Entry>)
    returns (id: nat, pos: int, ghost g: nat)
    requires FitsAll(entries0, attrs, pre + post) && here == (w == Here) && Stands(w, pre, entries0, g0, id0)
    requires Tracks(pre + entries0 + post, g0, passed, stable0)
    ensures var entries := ApplyAll(entries0, attrs, pre + post);
            && Tracks(pre + entries + post, g, passed, stable0 - Deleted(entries0, attrs, pre + post))
            && Stands(w, pre, entries, g, id)
            && (w == Before ==> g == g0) && (w == Behind ==> g - |entries| == g0 - |entries0|)
    ensures (id, pos) == if here then FixEach(id0, pos0, attrs) else (id0, pos0)
  {
    hide Tracks, Apply;
    ghost var entries, stable, others := entries0, stable0, pre + post;
    id, pos, g := id0, pos0, g0;
    assert attrs[0..] == attrs;
    for i := 0 to |attrs|
      invariant FitsAll(entries, attrs[i..], others)
      invariant ApplyAll(entries, attrs[i..], others) == ApplyAll(entries0, attrs, others)
      invariant stable - Deleted(entries, attrs[i..], others) == stable0 - Deleted(entries0, attrs, others)
      invariant Tracks(pre + entries + post, g, passed, stable) && Stands(w, pre, entries, g, id)
      invariant (w == Before ==> g == g0) && (w == Behind ==> g - |entries| == g0 - |entries0|)
      invariant if here then FixEach(id, pos, attrs[i..]) == FixEach(id0, pos0, attrs) else id == id0 && pos == pos0
    {
      var a := attrs[i];
      assert attrs[i..][0] == a && attrs[i..][1..] == attrs[i + 1..];
      ApplySize(entries, a);
      ghost var g1: int := if here then |pre| + Fix(id, pos, a).0 else if w == Before then g
            else g + |Apply(entries, a)| - |entries|;
      AttrTracks(pre, entries, post, a, g, g1, passed, stable);
      if here {
        var (nid, npos) := Fix(id, pos, a);
        id, pos := nid, npos;
      }
      g, stable, entries := g1, stable - DeletedBy(entries, a), Apply(entries, a);
    }
    assert attrs[|attrs|..] == [];
    assert stable - {} == stable;
  }

  lemma ApplySize(entries: seq<Entry>, a: Attr)
    requires Fits(entries, a)
    ensures |Apply(entries, a)| == |entries| + (if a.Create? then 1 else 0) - (if a.Delete? then 1 else 0)
  {
  }

  /** Whether a commit leaves a pair empty that can be dropped: not the first of the directory. */
  predicate Drops(pairs: Layout, j: nat, attrs: seq<Attr>)
    requires j < |pairs| && FitsAll(pairs[j], attrs, Others(pairs, j))
  {
    && j > 0 && ApplyAll(pairs[j], attrs, Others(pairs, j)) == []
    && exists i :: 0 <= i < |attrs| && attrs[i].Delete?
  }

  function Others(pairs: Layout, j: nat): seq<Entry>
    requires j < |pairs|
  {
    Flatten(pairs[..j]) + Flatten(pairs[j + 1..])
  }

  /** The pairs that a commit splits a pair into: none of them empty, but for a first pair without
      entries. */
  predicate Pieces(pieces: Layout, entries: seq<Entry>, j: nat) {
    Flatten(pieces) == entries && Chained(pieces) && (entries == [] ==> |pieces| == 1)
        && (pieces[0] == [] ==> entries == [] && j == 0)
  }

  function Spliced(pairs: Layout, j: nat, pieces: Layout): Layout
    requires j < |pairs|
  {
    pairs[..j] + pieces + pairs[j + 1..]
  }

  lemma SplicedFlatten(pairs: Layout, j: nat, pieces: Layout)
    requires j < |pairs|
    ensures Flatten(Spliced(pairs, j, pieces)) == Flatten(pairs[..j]) + Flatten(pieces) + Flatten(pairs[j + 1..])
    ensures forall k :: 0 <= k <= j ==> Spliced(pairs, j, pieces)[..k] == pairs[..k]
    ensures Spliced(pairs, j, pieces)[..j + |pieces|] == pairs[..j] + pieces
    ensures |Flatten(Spliced(pairs, j, pieces)[..j + |pieces|])| == |Flatten(pairs[..j])| + |Flatten(pieces)|
  {
    hide Flatten;
    FlattenConcat(pairs[..j], pieces);
    FlattenConcat(pairs[..j] + pieces, pairs[j + 1..]);
  }

  /** Pairs behind the changed one keep their distance from it. */
  lemma SplicedBehind(pairs: Layout, j: nat, pieces: Layout, k: nat)
    requires j < k < |pairs|
    ensures var m := k + |pieces| - 1;
            && m < |Spliced(pairs, j, pieces)| && Spliced(pairs, j, pieces)[m] == pairs[k]
            && |Flatten(Spliced(pairs, j, pieces)[..m])| - |Flatten(pieces)| == |Flatten(pairs[..k])| - |pairs[j]|
  {
    hide Flatten;
    var m := k + |pieces| - 1;
    assert Spliced(pairs, j, pieces)[..m] == pairs[..j] + pieces + pairs[j + 1..k];
    assert pairs[..k] == pairs[..j] + [pairs[j]] + pairs[j + 1..k];
    FlattenOne(pairs[j]);
    FlattenConcat(pairs[..j], pieces);
    FlattenConcat(pairs[..j] + pieces, pairs[j + 1..k]);
    FlattenConcat(pairs[..j], [pairs[j]]);
    FlattenConcat(pairs[..j] + [pairs[j]], pairs[j + 1..k]);
  }

  /** Where the id of a pair is once entries of the pair went to later ones. */
  function SettledAt(pairs: Layout, k: nat, id: nat): (nat, nat)
    requires k < |pairs|
    decreases |pairs| - k
  {
    if id >= |pairs[k]| && k + 1 < |pairs| then SettledAt(pairs, k + 1, id - |pairs[k]|) else (k, id)
  }

  /** Moves an open directory from a pair that was split to where its entry went. */
  method Settle(pairs: Layout, k0: nat, id0: nat) returns (k: nat, id: nat)
    requires Chained(pairs) && k0 < |pairs| && |Flatten(pairs[..k0])| + id0 <= |Flatten(pairs)|
    ensures k < |pairs| && id <= |pairs[k]| && (k, id) == SettledAt(pairs, k0, id0)
    ensures |Flatten(pairs[..k])| + id == |Flatten(pairs[..k0])| + id0
  {
    hide Flatten;
    k, id := k0, id0;
    PlaceAt(pairs, k);
    while id >= |pairs[k]| && k + 1 < |pairs|
      invariant k < |pairs| && |Flatten(pairs[..k])| + id == |Flatten(pairs[..k0])| + id0
      invariant SettledAt(pairs, k, id) == SettledAt(pairs, k0, id0)
      decreases |pairs| - k
    {
      PlaceAt(pairs, k);
      // the entry went to a later pair, and is counted from its start
      id := id - |pairs[k]|;
      k := k + 1;
    }
    PlaceAt(pairs, k);
  }

  ghost function PlaceOf(pairs: Layout, detached: bool, k: nat, id: nat): nat
    requires detached || k < |pairs|
  {
    if detached then |Flatten(pairs)| else |Flatten(pairs[..k])| + id
  }

  /** An open directory is at an entry, and missed and repeated none. */
  ghost predicate Reading(pairs: Layout, detached: bool, k: nat, id: nat, passed: seq<Entry>, stable: set<Entry>) {
    && Chained(pairs) && (!detached ==> k < |pairs| && id <= |pairs[k]|)
    && Tracks(Flatten(pairs), PlaceOf(pairs, detached, k, id), passed, stable)
  }

  lemma SplicedChained(pairs: Layout, j: nat, attrs: seq<Attr>, pieces: Layout)
    requires Chained(pairs) && j < |pairs| && FitsAll(pairs[j], attrs, Others(pairs, j))
    requires !Drops(pairs, j, attrs) ==> Pieces(pieces, ApplyAll(pairs[j], attrs, Others(pairs, j)), j)
    ensures Chained(Spliced(pairs, j, if Drops(pairs, j, attrs) then [] else pieces))
  {
    hide Flatten, ApplyAll, FitsAll;
  }

  /** Where an open directory is after the j-th of `n` pairs was replaced, given its id in that
      pair. */
  function Replaced(after: Layout, n: nat, j: nat, detached: bool, k: nat, nid: nat): (bool, nat, nat) {
    if detached || k < j then (detached, k, nid)
    else if k > j then (false, if k + |after| < n then 0 else k + |after| - n, nid)
    else if j < |after| then var (k', id) := SettledAt(after, j, nid); (false, k', id)
    else (true, k, nid)
  }

  /** Where an open directory is after a commit: on a dropped pair it moves to the next one or is
      left behind, on a split pair it follows its entry. */
  method Replace(pairs: Layout, j: nat, attrs: seq<Attr>, pieces: Layout, detached0: bool, k0: nat, ghost id0: nat,
        nid: nat, ghost g: nat)
    returns (detached: bool, k: nat, id: nat)
    requires Chained(pairs) && j < |pairs| && FitsAll(pairs[j], attrs, Others(pairs, j))
    requires !Drops(pairs, j, attrs) ==> Pieces(pieces, ApplyAll(pairs[j], attrs, Others(pairs, j)), j)
    requires !detached0 ==> k0 < |pairs| && (k0 != j ==> nid == id0 <= |pairs[k0]|)
    requires var n := |ApplyAll(pairs[j], attrs, Others(pairs, j))|;
             if detached0 then g - n == |Flatten(pairs)| - |pairs[j]|
             else if k0 == j then g == |Flatten(pairs[..j])| + nid && nid <= n
             else g == |Flatten(pairs[..k0])| + id0 + if k0 > j then n - |pairs[j]| else 0
    ensures var after := Spliced(pairs, j, if Drops(pairs, j, attrs) then [] else pieces);
            && (!detached ==> k < |after| && id <= |after[k]|)
            && PlaceOf(after, detached, k, id) == g
            && (detached, k, id) == Replaced(after, |pairs|, j, detached0, k0, nid)
  {
    hide Flatten, ApplyAll, FitsAll, Pieces;
    detached, k, id := detached0, k0, nid;
    var drops := Drops(pairs, j, attrs);
    var with := if drops then [] else pieces;
    var after := Spliced(pairs, j, with);
    SplicedSizes(pairs, j, attrs, pieces);
    SplicedFlatten(pairs, j, with);
    SplicedChained(pairs, j, attrs, pieces);
    FlattenAt(pairs, j);
    if detached {
    } else if k == j {
      if drops && j == |after| {
        detached := true;
        assert pairs[j + 1..] == [];
      } else {
        k, id := Settle(after, j, nid);
      }
    } else if k > j {
      SplicedBehind(pairs, j, with, k);
      k := k + |with| - 1;
    }
  }

  lemma SplicedSizes(pairs: Layout, j: nat, attrs: seq<Attr>, pieces: Layout)
    requires j < |pairs| && FitsAll(pairs[j], attrs, Others(pairs, j))
    requires !Drops(pairs, j, attrs) ==> Pieces(pieces, ApplyAll(pairs[j], attrs, Others(pairs, j)), j)
    ensures Flatten(if Drops(pairs, j, attrs) then [] else pieces) == ApplyAll(pairs[j], attrs, Others(pairs, j))
    ensures Flatten([]) == [] && (!Drops(pairs, j, attrs) ==> pieces != [])
  {
  }

  /** Only the first pair of a directory may be empty. */
  predicate Chained(pairs: Layout) {
    pairs != [] && forall i :: 0 < i < |pairs| ==> pairs[i] != []
  }

  // ---------------------------------------------------------------- before the first read

  /** Where an open directory is. */
  datatype Reader = Reader(detached: bool, k: nat, id: nat, pos: int)

  /** A commit to the j-th pair, which is dropped or turns into some pieces. */
  datatype Change = Change(j: nat, attrs: seq<Attr>, pieces: Layout)

  predicate Allowed(pairs: Layout, c: Change) {
    && c.j < |pairs| && FitsAll(pairs[c.j], c.attrs, Others(pairs, c.j))
    && (!Drops(pairs, c.j, c.attrs) ==> Pieces(c.pieces, ApplyAll(pairs[c.j], c.attrs, Others(pairs, c.j)), c.j))
  }

  function Changed(pairs: Layout, c: Change): Layout
    requires Allowed(pairs, c)
  {
    Spliced(pairs, c.j, if Drops(pairs, c.j, c.attrs) then [] else c.pieces)
  }

  /** A directory loses a pair exactly when a commit with a delete empties one behind its first. */
  lemma LosesPair(pairs: Layout, c: Change)
    requires Allowed(pairs, c)
    ensures |Changed(pairs, c)| < |pairs| <==>
            && c.j > 0 && (exists i :: 0 <= i < |c.attrs| && c.attrs[i].Delete?)
            && ApplyAll(pairs[c.j], c.attrs, Others(pairs, c.j)) == []
    ensures |Changed(pairs, c)| < |pairs| ==> Changed(pairs, c) == pairs[..c.j] + pairs[c.j + 1..]
  {
    hide ApplyAll, FitsAll, Others, Flatten;
    assert pairs[..c.j] + [] == pairs[..c.j];
  }

  /** What a commit does to an open directory: only attributes of the pair it is on count. */
  function Follow(pairs: Layout, c: Change, r: Reader): Reader
    requires Allowed(pairs, c)
  {
    var here := !r.detached && r.k == c.j;
    var (nid, npos) := if here then FixEach(r.id, r.pos, c.attrs) else (r.id, r.pos);
    var (detached, k, id) := Replaced(Changed(pairs, c), |pairs|, c.j, r.detached, r.k, nid);
    Reader(detached, k, id, npos)
  }

  predicate AllowedAll(pairs: Layout, cs: seq<Change>)
    decreases |cs|
  {
    cs == [] || (Allowed(pairs, cs[0]) && AllowedAll(Changed(pairs, cs[0]), cs[1..]))
  }

  /** The pairs and the open directory after some commits. */
  function Run(pairs: Layout, r: Reader, cs: seq<Change>): (Layout, Reader)
    requires AllowedAll(pairs, cs)
    decreases |cs|
  {
    if cs == [] then (pairs, r) else Run(Changed(pairs, cs[0]), Follow(pairs, cs[0], r), cs[1..])
  }

  predicate OnPair(pairs: Layout, r: Reader) {
    !r.detached ==> r.k < |pairs| && r.id <= |pairs[r.k]|
  }

  /** The entries in front of the reader in its pair. */
  function InFront(pairs: Layout, r: Reader): seq<Entry>
    requires OnPair(pairs, r)
  {
    if r.detached then [] else pairs[r.k][..r.id]
  }

  /** The entries in front of the reader that a commit takes it away from, by splitting its pair. */
  function LeftBy(pairs: Layout, c: Change, r: Reader): seq<Entry>
    requires Allowed(pairs, c)
  {
    if r.detached || r.k != c.j || r.id > |pairs[c.j]| then [] else
    var front, id := Front(pairs[c.j][..r.id], c.attrs), Follow(pairs, c, r).id;
    if id <= |front| then front[..|front| - id] else []
  }

  function LeftBehind(pairs: Layout, r: Reader, cs: seq<Change>): seq<Entry>
    requires AllowedAll(pairs, cs)
    decreases |cs|
  {
    if cs == [] then []
    else LeftBy(pairs, cs[0], r) + LeftBehind(Changed(pairs, cs[0]), Follow(pairs, cs[0], r), cs[1..])
  }

  predicate CreatedBy(attrs: seq<Attr>, e: Entry) {
    exists i :: 0 <= i < |attrs| && attrs[i].Create? && attrs[i].entry == e
  }

  predicate Created(cs: seq<Change>, e: Entry) {
    exists i :: 0 <= i < |cs| && CreatedBy(cs[i].attrs, e)
  }

  /** Settling keeps the entries right in front of the reader in front of it. */
  lemma {:induction false} SettledFront(pairs: Layout, k: nat, id: nat)
    requires k < |pairs| && id <= |Flatten(pairs[k..])|
    ensures var (k', id') := SettledAt(pairs, k, id);
            && k' < |pairs| && id' <= |pairs[k']| && id' <= id
            && Flatten(pairs[k..])[id - id'..id] == pairs[k'][..id']
    decreases |pairs| - k
  {
    hide Flatten;
    FlattenHead(pairs, k);
    if id >= |pairs[k]| && k + 1 < |pairs| {
      var rest, n := Flatten(pairs[k + 1..]), |pairs[k]|;
      SettledFront(pairs, k + 1, id - n);
      var id' := SettledAt(pairs, k + 1, id - n).1;
      assert (pairs[k] + rest)[id - id'..id] == rest[id - n - id'..id - n];
    }
  }

  lemma FlattenHead(pairs: Layout, k: nat)
    requires k < |pairs|
    ensures Flatten(pairs[k..]) == pairs[k] + Flatten(pairs[k + 1..])
    ensures k + 1 == |pairs| ==> Flatten(pairs[k..]) == pairs[k]
  {
    assert pairs[k..][0] == pairs[k] && pairs[k..][1..] == pairs[k + 1..];
  }

  lemma ChangedFrom(pairs: Layout, c: Change)
    requires Allowed(pairs, c)
    ensures var entries := ApplyAll(pairs[c.j], c.attrs, Others(pairs, c.j));
            && Flatten(Changed(pairs, c)[c.j..]) == entries + Flatten(pairs[c.j + 1..])
            && (c.j >= |Changed(pairs, c)| ==> entries == [])
  {
    hide Flatten, ApplyAll, FitsAll, Others;
    var with := if Drops(pairs, c.j, c.attrs) then [] else c.pieces;
    SplicedSizes(pairs, c.j, c.attrs, c.pieces);
    assert Changed(pairs, c)[c.j..] == with + pairs[c.j + 1..];
    FlattenConcat(with, pairs[c.j + 1..]);
  }

  /** One commit, for a reader on the pair it goes to: what is in front of the reader afterwards
      stays with it or is left behind, and the position counts both. */
  lemma FollowHere(pairs: Layout, c: Change, r: Reader)
    requires Allowed(pairs, c) && OnPair(pairs, r) && !r.detached && r.k == c.j
    ensures var after, r' := Changed(pairs, c), Follow(pairs, c, r);
            && OnPair(after, r') && |InFront(after, r')| == r'.id
            && Front(InFront(pairs, r), c.attrs) == LeftBy(pairs, c, r) + InFront(after, r')
            && r'.pos - r'.id == r.pos - r.id + |LeftBy(pairs, c, r)|
  {
    hide Flatten, ApplyAll, FitsAll, Others, FixEach, Front, Drops, Pieces, Spliced, Changed, SettledAt;
    var entries, front := pairs[c.j], InFront(pairs, r);
    assert front + entries[r.id..] == entries;
    FixCountsFront(front, entries[r.id..], r.pos, c.attrs, Others(pairs, c.j));
    ChangedFrom(pairs, c);
    var after, left := Changed(pairs, c), Front(front, c.attrs);
    if c.j < |after| {
      SettledFront(after, c.j, |left|);
      PrefixEnd(left, ApplyAll(entries, c.attrs, Others(pairs, c.j)), Flatten(pairs[c.j + 1..]),
          SettledAt(after, c.j, |left|).1);
    }
  }

  lemma PrefixEnd(left: seq<Entry>, entries: seq<Entry>, rest: seq<Entry>, n: nat)
    requires left <= entries && n <= |left|
    ensures (entries + rest)[|left| - n..|left|] == left[|left| - n..]
    ensures left == left[..|left| - n] + left[|left| - n..]
  {
  }

  lemma ChangedElsewhere(pairs: Layout, c: Change, r: Reader)
    requires Allowed(pairs, c) && OnPair(pairs, r) && (r.detached || r.k != c.j)
    ensures var after, r' := Changed(pairs, c), Follow(pairs, c, r);
            && OnPair(after, r') && InFront(after, r') == InFront(pairs, r) && r'.pos == r.pos && r'.id == r.id
            && LeftBy(pairs, c, r) == []
  {
    hide ApplyAll, FitsAll, Others, FixEach, Front, Drops, Pieces;
  }

  lemma {:induction false} RunCounts(pairs: Layout, r: Reader, cs: seq<Change>)
    requires AllowedAll(pairs, cs) && OnPair(pairs, r) && |InFront(pairs, r)| == r.id
    ensures var (after, r') := Run(pairs, r, cs);
            && OnPair(after, r') && |InFront(after, r')| == r'.id
            && r'.pos - r'.id == r.pos - r.id + |LeftBehind(pairs, r, cs)|
            && forall e :: e in LeftBehind(pairs, r, cs) + InFront(after, r') ==>
                e in InFront(pairs, r) || Created(cs, e)
    decreases |cs|
  {
    hide Allowed, Changed, Follow, LeftBy, OnPair, InFront, CreatedBy;
    if cs != [] {
      var c := cs[0];
      if !r.detached && r.k == c.j {
        FollowHere(pairs, c, r);
      } else {
        ChangedElsewhere(pairs, c, r);
      }
      var after, r' := Changed(pairs, c), Follow(pairs, c, r);
      RunCounts(after, r', cs[1..]);
      forall e | e in LeftBy(pairs, c, r) + InFront(after, r')
        ensures e in InFront(pairs, r) || Created(cs, e)
      {
        if !r.detached && r.k == c.j {
          NowInFront(InFront(pairs, r), c.attrs, e);
        }
      }
      forall e | Created(cs[1..], e)
        ensures Created(cs, e)
      {
        CreatedLater(cs, e);
      }
    }
  }

  lemma NowInFront(front: seq<Entry>, attrs: seq<Attr>, e: Entry)
    requires e in Front(front, attrs)
    ensures e in front || CreatedBy(attrs, e)
  {
    FrontWasCreated(front, attrs, e);
  }

  lemma CreatedLater(cs: seq<Change>, e: Entry)
    requires cs != [] && Created(cs[1..], e)
    ensures Created(cs, e)
  {
    var i :| 0 <= i < |cs[1..]| && CreatedBy(cs[1..][i].attrs, e);
    assert CreatedBy(cs[i + 1].attrs, e);
  }

  /** Any commits to any pairs between opening a directory and first reading it, splits and drops
      among them: the position counts the entries created in front of the reader in the pair it was
      on, less those deleted from the pair it was on. So "." comes first exactly if each of them was
      deleted before a split took the reader to another pair. */
  lemma DotComesFirst(pairs: Layout, cs: seq<Change>)
    requires Chained(pairs) && AllowedAll(pairs, cs)
    ensures var start := Reader(false, 0, 0, 0);
            var (after, r) := Run(pairs, start, cs);
            var left := LeftBehind(pairs, start, cs);
            && OnPair(after, r) && r.pos == |left| + |InFront(after, r)|
            && (r.pos == 0 <==> left == [] && InFront(after, r) == [])
            && forall e :: e in left + InFront(after, r) ==> Created(cs, e)
  {
    RunCounts(pairs, Reader(false, 0, 0, 0), cs);
  }

  lemma OneChange(pairs: Layout, r: Reader, c: Change, cs: seq<Change>)
    requires Allowed(pairs, c) && AllowedAll(Changed(pairs, c), cs)
    ensures AllowedAll(pairs, [c] + cs) && Run(pairs, r, [c] + cs) == Run(Changed(pairs, c), Follow(pairs, c, r), cs)
  {
    assert ([c] + cs)[1..] == cs;
  }

  /** An entry is created in front of the reader and the same commit splits the pair; then the entry
      is deleted. Nothing that was created is there, and yet "." is lost. */
  lemma DotIsLostBySplit(x: Entry, e: Entry)
    requires x != e
    ensures var cs := [Change(0, [Create(0, e)], [[e], [x]]), Change(0, [Delete(0)], [[]])];
            AllowedAll([[x]], cs) && Run([[x]], Reader(false, 0, 0, 0), cs) == ([[], [x]], Reader(false, 1, 0, 1))
  {
    var start := Reader(false, 0, 0, 0);
    var c, d := Change(0, [Create(0, e)], [[e], [x]]), Change(0, [Delete(0)], [[]]);
    FlattenTwo([e], [x]);
    FlattenTwo([], [x]);
    FlattenOne([x]);
    OneCreate([x], e, []);
    assert Others([[x]], 0) == [];
    assert Changed([[x]], c) == [[e], [x]];
    assert SettledAt([[e], [x]], 0, 1) == SettledAt([[e], [x]], 1, 0) == (1, 0);
    assert Follow([[x]], c, start) == Reader(false, 1, 0, 1);
    assert [[e], [x]][..0] == [] && [[e], [x]][1..] == [[x]];
    assert Others([[e], [x]], 0) == [x];
    OneDelete([e], [x]);
    FlattenOne([]);
    assert Changed([[e], [x]], d) == [[], [x]];
    OneChange([[e], [x]], Reader(false, 1, 0, 1), d, []);
    OneChange([[x]], start, c, [d]);
    assert [c] + [d] == [c, d] && [d] + [] == [d];
  }

  /** The other way round: the reader's pair is emptied, so that the reader goes on to the next one;
      an entry created in the emptied pair then comes in front of the reader and costs nothing. */
  lemma DotIsKeptBehind(a: Entry, b: Entry, e: Entry)
    requires a != b && e != a && e != b
    ensures var cs := [Change(0, [Delete(0)], [[]]), Change(0, [Create(0, e)], [[e]])];
            AllowedAll([[a], [b]], cs)
                && Run([[a], [b]], Reader(false, 0, 0, 0), cs) == ([[e], [b]], Reader(false, 1, 0, 0))
  {
    var start := Reader(false, 0, 0, 0);
    var c, d := Change(0, [Delete(0)], [[]]), Change(0, [Create(0, e)], [[e]]);
    FlattenOne([b]);
    FlattenOne([e]);
    FlattenOne([]);
    OneDelete([a], [b]);
    assert [[a], [b]][..0] == [] && [[a], [b]][1..] == [[b]];
    assert Others([[a], [b]], 0) == [b];
    assert Changed([[a], [b]], c) == [[], [b]];
    assert SettledAt([[], [b]], 0, 0) == SettledAt([[], [b]], 1, 0) == (1, 0);
    assert Follow([[a], [b]], c, start) == Reader(false, 1, 0, 0);
    assert [[], [b]][..0] == [] && [[], [b]][1..] == [[b]];
    assert Others([[], [b]], 0) == [b];
    OneCreate([], e, [b]);
    assert Changed([[], [b]], d) == [[e], [b]];
    OneChange([[], [b]], Reader(false, 1, 0, 0), d, []);
    OneChange([[a], [b]], start, c, [d]);
    assert [c] + [d] == [c, d] && [d] + [] == [d];
  }

  /** A reader at the end of a directory of two files, the first one about to be moved away: it was
      given nothing, so that it is at position 2. Carrying out the move takes it back to position 1,
      and the next read returns ".." a second time. */
  lemma DotDotAgain()
    ensures var demove := Change(0, [Delete(0)], [[NEXT]]);
            && Answers([[STALE, NEXT]], Moving(0, 0), 1) == []
            && Allowed([[STALE, NEXT]], demove) && Changed([[STALE, NEXT]], demove) == [[NEXT]]
            && Follow([[STALE, NEXT]], demove, Reader(false, 0, 2, 2)) == Reader(false, 0, 1, 1)
  {
    var two, attrs := [STALE, NEXT], [Delete(0)];
    var pairs: Layout := [two];
    ReadsNothing();
    FlattenOne([NEXT]);
    assert attrs[1..] == [] && two[1..] == [NEXT] && pairs[..0] == [] && pairs[1..] == [];
    assert Others(pairs, 0) == [];
    assert ApplyAll(two, attrs, []) == ApplyAll([NEXT], [], []) == [NEXT];
    assert FixEach(2, 2, attrs) == FixEach(1, 1, []) == (1, 1);
    assert SettledAt([[NEXT]], 0, 1) == (0, 1);
  }

  lemma FlattenTwo(a: seq<Entry>, b: seq<Entry>)
    ensures Flatten([a, b]) == a + b
  {
    FlattenOne(b);
    assert [a, b][1..] == [b];
  }

  lemma OneCreate(entries: seq<Entry>, e: Entry, others: seq<Entry>)
    requires e !in entries && e !in others
    ensures var attrs := [Create(0, e)];
            && FitsAll(entries, attrs, others) && ApplyAll(entries, attrs, others) == [e] + entries
            && FixEach(0, 0, attrs) == (1, 1)
  {
    assert [Create(0, e)][1..] == [];
    assert FixEach(0, 0, [Create(0, e)]) == FixEach(1, 1, []);
  }

  lemma OneDelete(entries: seq<Entry>, others: seq<Entry>)
    requires |entries| == 1
    ensures var attrs := [Delete(0)];
            && FitsAll(entries, attrs, others) && ApplyAll(entries, attrs, others) == []
            && FixEach(0, 0, attrs) == (0, 0)
  {
    assert [Delete(0)][1..] == [];
    assert FixEach(0, 0, [Delete(0)]) == FixEach(0, 0, []);
  }

  datatype Info = Dot | DotDot | Item(entry: Entry) | End

  // ---------------------------------------------------------------- a pending move

  /** The move the global state records out of this directory, if any: entry m of pair j. */
  datatype Move = NoMove | Moving(j: nat, m: nat)

  function MoveIn(move: Move, k: nat): M.Option<nat> {
    if move.Moving? && move.j == k then M.Some(move.m) else M.None
  }

  /** The entry to move is hidden, and those behind it are not. */
  predicate MoveFits(pairs: Layout, move: Move) {
    move.Moving? ==>
      && move.j < |pairs| && move.m < |pairs[move.j]| && pairs[move.j][move.m].hidden
      && forall i :: move.m < i < |pairs[move.j]| ==> !pairs[move.j][i].hidden
  }

  /** What reading an id gives: the lookup goes around the entry to move as lfs_dir_getslice does. */
  function Answer(entries: seq<Entry>, mv: M.Option<nat>, id: nat): M.Option<Entry> {
    match M.Synthetic(mv, id)
    case None => M.None
    case Some(p) => if p < |entries| && !entries[p].hidden then M.Some(entries[p]) else M.None
  }

  /** No entry stands behind the one to move. */
  predicate Harmless(pairs: Layout, move: Move)
    requires MoveFits(pairs, move)
  {
    move.Moving? ==> move.m + 1 == |pairs[move.j]|
  }

  /** The reader went past the entry to move, and there was one behind it. */
  predicate Overtook(pairs: Layout, move: Move, detached: bool, k: nat, id: nat)
    requires MoveFits(pairs, move)
  {
    && !Harmless(pairs, move)
    && (detached || k > move.j || (k == move.j && id > move.m + 1))
  }

  /** What reading the first `n` ids of a pair gives. */
  function AnswersBelow(entries: seq<Entry>, mv: M.Option<nat>, n: nat): seq<Entry> {
    if n == 0 then []
    else AnswersBelow(entries, mv, n - 1) + match Answer(entries, mv, n - 1) case None => [] case Some(e) => [e]
  }

  /** What reading the first `k` pairs gives. */
  function Answers(pairs: Layout, move: Move, k: nat): seq<Entry>
    requires k <= |pairs|
  {
    if k == 0 then [] else Answers(pairs, move, k - 1) + AnswersBelow(pairs[k - 1], MoveIn(move, k - 1), |pairs[k - 1]|)
  }

  /** What reading gives up to an id of a pair. */
  function GivenBelow(pairs: Layout, move: Move, k: nat, id: nat): seq<Entry>
    requires k < |pairs|
  {
    Answers(pairs, move, k) + AnswersBelow(pairs[k], MoveIn(move, k), id)
  }

  /** What should be read. */
  function Shown(list: seq<Entry>): seq<Entry> {
    if list == [] then []
    else Shown(list[..|list| - 1]) + if list[|list| - 1].hidden then [] else [list[|list| - 1]]
  }

  lemma {:induction false} ShownConcat(a: seq<Entry>, b: seq<Entry>)
    ensures Shown(a + b) == Shown(a) + Shown(b)
    decreases |b|
  {
    if b == [] {
      assert a + b == a;
    } else {
      assert (a + b)[..|a + b| - 1] == a + b[..|b| - 1];
      ShownConcat(a, b[..|b| - 1]);
    }
  }

  /** In front of the entry to move every id answers with its own entry, behind it with the next
      one. */
  lemma {:induction false} AnswersAre(entries: seq<Entry>, mv: M.Option<nat>, n: nat)
    requires n <= |entries|
    requires mv.Some? ==> mv.value < |entries| && entries[mv.value].hidden
    requires mv.Some? ==> forall i :: mv.value < i < |entries| ==> !entries[i].hidden
    ensures AnswersBelow(entries, mv, n) ==
            if mv.None? || n <= mv.value + 1 then Shown(entries[..n])
            else Shown(entries[..mv.value + 1]) + entries[mv.value + 2..if n < |entries| then n + 1 else n]
  {
    hide Shown;
    if n > 0 {
      AnswersAre(entries, mv, n - 1);
      OneMoreShown(entries, n - 1);
      if mv.Some? && mv.value + 1 < n < |entries| {
        OneLonger(entries, mv.value + 2, n);
      }
    } else {
      NothingShown();
      assert entries[..0] == [];
    }
  }

  lemma OneMoreShown(entries: seq<Entry>, n: nat)
    requires n < |entries|
    ensures Shown(entries[..n + 1]) == Shown(entries[..n]) + if entries[n].hidden then [] else [entries[n]]
  {
    assert entries[..n + 1][..n] == entries[..n];
  }

  lemma OneLonger(entries: seq<Entry>, a: nat, n: nat)
    requires a <= n < |entries|
    ensures entries[a..n + 1] == entries[a..n] + [entries[n]]
  {
  }

  lemma {:induction false} AllShown(list: seq<Entry>)
    requires forall i :: 0 <= i < |list| ==> !list[i].hidden
    ensures Shown(list) == list
    decreases |list|
  {
    if list != [] {
      AllShown(list[..|list| - 1]);
    }
  }

  /** One pair is read as it should be exactly if no entry stands behind the one to move; else the
      answers are one short, by that entry. */
  lemma PairAnswers(entries: seq<Entry>, mv: M.Option<nat>)
    requires mv.Some? ==> mv.value < |entries| && entries[mv.value].hidden
    requires mv.Some? ==> forall i :: mv.value < i < |entries| ==> !entries[i].hidden
    ensures var given := AnswersBelow(entries, mv, |entries|);
            if mv.None? || mv.value + 1 == |entries| then given == Shown(entries)
            else |given| + 1 == |Shown(entries)| && given == Shown(entries[..mv.value + 1]) + entries[mv.value + 2..]
  {
    AnswersAre(entries, mv, |entries|);
    assert entries[..|entries|] == entries;
    if mv.Some? && mv.value + 1 < |entries| {
      var m := mv.value;
      assert entries == entries[..m + 1] + entries[m + 1..];
      ShownConcat(entries[..m + 1], entries[m + 1..]);
      AllShown(entries[m + 1..]);
    }
  }

  lemma {:induction false} AnswersCount(pairs: Layout, move: Move, k: nat)
    requires MoveFits(pairs, move) && k <= |pairs|
    ensures if Harmless(pairs, move) || k <= move.j then Answers(pairs, move, k) == Shown(Flatten(pairs[..k]))
            else |Answers(pairs, move, k)| + 1 == |Shown(Flatten(pairs[..k]))|
  {
    hide Flatten, Shown, AnswersBelow;
    if k == 0 {
      assert pairs[..0] == [];
      NothingShown();
    } else {
      AnswersCount(pairs, move, k - 1);
      FlattenAt(pairs, k - 1);
      ShownConcat(Flatten(pairs[..k - 1]), pairs[k - 1]);
      PairAnswers(pairs[k - 1], MoveIn(move, k - 1));
    }
  }

  lemma NothingShown()
    ensures Flatten([]) == [] && Shown([]) == []
  {
  }

  /** Reading a whole directory gives what is there exactly if no entry stands behind one whose
      move is pending. */
  lemma ReadsAllIff(pairs: Layout, move: Move)
    requires MoveFits(pairs, move)
    ensures Answers(pairs, move, |pairs|) == Shown(Flatten(pairs)) <==> Harmless(pairs, move)
  {
    AnswersCount(pairs, move, |pairs|);
    assert pairs[..|pairs|] == pairs;
  }

  const STALE := Entry("a", false, true)
  const NEXT := Entry("b", false, false)

  /** A directory of two files, the first one about to be moved away: reading gives nothing, although
      the second file is there. */
  lemma ReadsNothing()
    ensures MoveFits([[STALE, NEXT]], Moving(0, 0)) && Shown(Flatten([[STALE, NEXT]])) == [NEXT]
    ensures Answers([[STALE, NEXT]], Moving(0, 0), 1) == []
  {
    var two := [STALE, NEXT];
    FlattenOne(two);
    assert two[..1] == [STALE] && [STALE][..0] == [];
    assert Shown([STALE]) == Shown([]) + [];
    PairAnswers(two, M.Some(0));
    assert two[2..] == [];
    assert Answers([two], Moving(0, 0), 0) == [];
  }

  // ---------------------------------------------------------------- open directories

  class OpenDir {
    // the pairs of the directory, and the move pending in it
    var pairs: Layout
    var move: Move
    // lfs_dir_t: which pair it is at (none, once a last pair was dropped from under it), and where
    var k: nat
    var detached: bool
    var id: nat
    var pos: int
    // what was returned, which entries the reader went past, and what existed all the time
    ghost var returned: seq<Entry>
    ghost var passed: seq<Entry>
    ghost var stable: set<Entry>

    ghost function Place(): nat
      reads this
      requires detached || k < |pairs|
    {
      PlaceOf(pairs, detached, k, id)
    }

    ghost predicate Valid()
      reads this
    {
      Reading(pairs, detached, k, id, passed, stable) && MoveFits(pairs, move)
    }

    /** The reader went past an entry behind one to move. */
    ghost predicate Missed()
      reads this
      requires MoveFits(pairs, move)
    {
      Overtook(pairs, move, detached, k, id)
    }

    /** lfs_dir_open */
    constructor (layout: Layout, pending: Move)
      requires Chained(layout) && MoveFits(layout, pending)
      requires forall e :: e in Flatten(layout) && !e.hidden ==> multiset(Flatten(layout))[e] == 1
      ensures Valid() && pairs == layout && move == pending && returned == passed == [] && pos == 0 && Place() == 0
              && !detached && k == 0
      ensures stable == set e | e in Flatten(layout) && !e.hidden
    {
      pairs, move := layout, pending;
      k, detached, id, pos := 0, false, 0, 0;
      returned, passed := [], [];
      stable := set e | e in Flatten(layout) && !e.hidden;
      new;
      assert pairs[..0] == [];
    }

    /** What reading gave since the directory was opened, if no commit came in between. */
    ghost function Given(): seq<Entry>
      reads this
      requires k < |pairs|
    {
      GivenBelow(pairs, move, k, id)
    }

    /** lfs_dir_read: once it reports the end, it went past every entry that existed all the time
        exactly once, and returned just what it went past unless it missed an entry behind one to
        move. */
    method Read() returns (info: Info)
      requires Valid()
      modifies `k, `id, `pos, `returned, `passed
      ensures Valid() && Place() >= old(Place()) && (old(Missed()) ==> Missed())
      ensures !Missed() ==> passed == old(passed) + if info.Item? then [info.entry] else []
      ensures !detached ==>
              k < |pairs| && old(k) < |pairs| && Given() == old(Given()) + if info.Item? then [info.entry] else []
      ensures match info
              case Dot => old(pos) == 0 && pos == 1 && returned == old(returned) && passed == old(passed)
                  && Place() == old(Place())
              case DotDot => old(pos) == 1 && pos == 2 && returned == old(returned) && passed == old(passed)
                  && Place() == old(Place())
              case Item(e) =>
                && !e.hidden && returned == old(returned) + [e] && pos == old(pos) + 1 && old(pos) !in {0, 1}
                && !detached && k < |pairs| && 0 < id <= |pairs[k]| && Place() > old(Place())
                && Answer(pairs[k], MoveIn(move, k), id - 1) == M.Some(e)
              case End =>
                && returned == old(returned) && Place() == |Flatten(pairs)| && old(pos) !in {0, 1}
                && (!detached ==> k + 1 == |pairs| && id == |pairs[k]|)
                && forall e :: e in stable ==> multiset(passed)[e] == 1
    {
      hide Reading, Answer, GivenBelow, Overtook, PlaceOf;
      AtAPair(pairs, detached, k, id, passed, stable);
      if pos == 0 {
        pos := pos + 1;
        return Dot;
      } else if pos == 1 {
        pos := pos + 1;
        return DotDot;
      }
      if detached {
        DetachedPassed(pairs, k, id, passed, stable);
        return End;
      }
      var answer;
      answer, k, id, passed := NextAnswer(pairs, move, k, id, passed, stable);
      if answer.None? {
        return End;
      }
      pos := pos + 1;
      returned := returned + [answer.value];
      return Item(answer.value);
    }

    /** lfs_dir_commit to the j-th pair, ending with the fix-up of open directories. The pair is
        dropped, rewritten in place, or split into `pieces`. */
    method Commit(j: nat, attrs: seq<Attr>, pieces: Layout)
      requires Valid() && move == NoMove && j < |pairs| && FitsAll(pairs[j], attrs, Others(pairs, j))
      requires !Drops(pairs, j, attrs) ==> Pieces(pieces, ApplyAll(pairs[j], attrs, Others(pairs, j)), j)
      modifies `pairs, `k, `detached, `id, `pos, `stable
      ensures Valid()
      ensures pairs == Spliced(old(pairs), j, if Drops(old(pairs), j, attrs) then [] else pieces)
      ensures Flatten(pairs) ==
              Flatten(old(pairs)[..j]) + ApplyAll(old(pairs)[j], attrs, Others(old(pairs), j)) +
                  Flatten(old(pairs)[j + 1..])
      ensures stable == old(stable) - Deleted(old(pairs)[j], attrs, Others(old(pairs), j))
      ensures pos == if !old(detached) && old(k) == j then FixEach(old(id), old(pos), attrs).1 else old(pos)
      ensures Reader(detached, k, id, pos) ==
              Follow(old(pairs), Change(j, attrs, pieces), Reader(old(detached), old(k), old(id), old(pos)))
    {
      hide Reading, FitsAll, ApplyAll, Deleted, Others, Drops, Pieces, Spliced, Flatten;
      ghost var stable' := stable - Deleted(pairs[j], attrs, Others(pairs, j));
      pairs, detached, k, id, pos := CommitTo(pairs, j, attrs, pieces, detached, k, id, pos, passed, stable);
      stable := stable';
    }

    /** lfs_fs_demove, which every operation that writes begins with: the commit that deletes the
        entry to move also ends the pending state. */
    method Demove(pieces: Layout)
      requires Valid() && move.Moving?
      requires var (j, attrs) := (move.j, [Delete(move.m)]);
               && FitsAll(pairs[j], attrs, Others(pairs, j))
               && (!Drops(pairs, j, attrs) ==> Pieces(pieces, ApplyAll(pairs[j], attrs, Others(pairs, j)), j))
      modifies `pairs, `move, `k, `detached, `id, `pos, `stable
      ensures Valid() && move == NoMove
      ensures var (j, attrs) := (old(move.j), [Delete(old(move.m))]);
              && Flatten(pairs) ==
                  Flatten(old(pairs)[..j]) + ApplyAll(old(pairs)[j], attrs, Others(old(pairs), j)) +
                  Flatten(old(pairs)[j + 1..])
              && stable == old(stable) - Deleted(old(pairs)[j], attrs, Others(old(pairs), j))
              && pos == if !old(detached) && old(k) == j then FixEach(old(id), old(pos), attrs).1 else old(pos)
    {
      hide Reading, FitsAll, ApplyAll, Deleted, Others, Drops, Pieces, Spliced, Flatten;
      var j, attrs := move.j, [Delete(move.m)];
      move := NoMove;
      Commit(j, attrs, pieces);
    }

    /** Reading a directory to its end right after opening it: everything that is there is returned,
        in order, if and only if no entry stands behind one whose move is pending. */
    method ReadAll() returns (entries: seq<Entry>)
      requires Valid() && returned == [] && Place() == 0 && pos == 0 && !detached && k == 0
      modifies `k, `id, `pos, `returned, `passed
      ensures entries == Answers(pairs, move, |pairs|)
      ensures entries == Shown(Flatten(pairs)) <==> Harmless(pairs, move)
    {
      hide Reading, Answer, GivenBelow, Answers, Shown, Flatten;
      entries := [];
      NothingGiven(pairs, move, id, passed, stable);
      while true
        invariant Valid() && !detached && k < |pairs| && Given() == entries && pos >= 0
        invariant Place() <= |Flatten(pairs)|
        decreases |Flatten(pairs)| - Place(), if pos < 2 then 2 - pos else 0
      {
        var info := Read();
        if info == End {
          break;
        }
        if info.Item? {
          entries := entries + [info.entry];
        }
        InListing(pairs, k, id, passed, stable);
      }
      AllGiven(pairs, move, k);
      ReadsAllIff(pairs, move);
    }
  }

  /** The loop of lfs_dir_read: ids without an answer are skipped, and the end of a pair leads to the
      next one. */
  method NextAnswer(pairs: Layout, move: Move, k0: nat, id0: nat, ghost passed0: seq<Entry>, ghost stable: set<Entry>)
    returns (answer: M.Option<Entry>, k: nat, id: nat, ghost passed: seq<Entry>)
    requires Reading(pairs, false, k0, id0, passed0, stable) && MoveFits(pairs, move)
    ensures k0 < |pairs| && Reading(pairs, false, k, id, passed, stable)
    ensures Overtook(pairs, move, false, k0, id0) ==> Overtook(pairs, move, false, k, id)
    ensures k < |pairs| && id <= |pairs[k]|
    ensures PlaceOf(pairs, false, k, id) >= PlaceOf(pairs, false, k0, id0) + if answer.Some? then 1 else 0
    ensures GivenBelow(pairs, move, k, id) == GivenBelow(pairs, move, k0, id0) + Item1(answer)
    ensures !Overtook(pairs, move, false, k, id) ==> passed == passed0 + Item1(answer)
    ensures answer.Some? ==> id > 0 && !answer.value.hidden && Answer(pairs[k], MoveIn(move, k), id - 1) == answer
    ensures answer.None? ==> k + 1 == |pairs| && id == |pairs[k]| && PlaceOf(pairs, false, k, id) == |Flatten(pairs)|
    ensures answer.None? ==> forall e :: e in stable ==> multiset(passed)[e] == 1
  {
    hide Flatten, Tracks, Answer, GivenBelow;
    k, id, passed := k0, id0, passed0;
    while true
      invariant Reading(pairs, false, k, id, passed, stable)
      invariant Overtook(pairs, move, false, k0, id0) ==> Overtook(pairs, move, false, k, id)
      invariant PlaceOf(pairs, false, k, id) >= PlaceOf(pairs, false, k0, id0)
      invariant GivenBelow(pairs, move, k, id) == GivenBelow(pairs, move, k0, id0)
      invariant !Overtook(pairs, move, false, k, id) ==> passed == passed0
      decreases |pairs| - k, if k < |pairs| then |pairs[k]| - id else 0
    {
      PlaceAt(pairs, k);
      if id == |pairs[k]| {
        if k + 1 == |pairs| {
          AllPassed(Flatten(pairs), PlaceOf(pairs, false, k, id), passed, stable);
          return M.None, k, id, passed;
        }
        NextPair(pairs, move, k);
        k := k + 1;
        id := 0;
        PlaceAt(pairs, k);
      }
      ReadTracks(Flatten(pairs), PlaceOf(pairs, false, k, id), passed, stable);
      StepAnswers(pairs, move, k, id);
      answer := Answer(pairs[k], MoveIn(move, k), id);
      ghost var own := pairs[k][id];
      assert Flatten(pairs)[PlaceOf(pairs, false, k, id)] == own;
      id := id + 1;
      passed := if own.hidden then passed else passed + [own];
      if answer.Some? {
        return;
      }
    }
  }

  lemma NothingGiven(pairs: Layout, move: Move, id: nat, passed: seq<Entry>, stable: set<Entry>)
    requires Reading(pairs, false, 0, id, passed, stable) && PlaceOf(pairs, false, 0, id) == 0
    ensures id == 0 && pairs != [] && GivenBelow(pairs, move, 0, id) == []
  {
    assert pairs[..0] == [];
  }

  lemma InListing(pairs: Layout, k: nat, id: nat, passed: seq<Entry>, stable: set<Entry>)
    requires Reading(pairs, false, k, id, passed, stable)
    ensures k < |pairs| && PlaceOf(pairs, false, k, id) <= |Flatten(pairs)|
  {
  }

  lemma AtAPair(pairs: Layout, detached: bool, k: nat, id: nat, passed: seq<Entry>, stable: set<Entry>)
    requires Reading(pairs, detached, k, id, passed, stable)
    ensures !detached ==> k < |pairs|
  {
  }

  lemma AllGiven(pairs: Layout, move: Move, k: nat)
    requires k + 1 == |pairs|
    ensures GivenBelow(pairs, move, k, |pairs[k]|) == Answers(pairs, move, |pairs|)
  {
  }

  function Item1(answer: M.Option<Entry>): seq<Entry> {
    match answer case None => [] case Some(e) => [e]
  }

  lemma DetachedPassed(pairs: Layout, k: nat, id: nat, passed: seq<Entry>, stable: set<Entry>)
    requires Reading(pairs, true, k, id, passed, stable)
    ensures PlaceOf(pairs, true, k, id) == |Flatten(pairs)|
    ensures forall e :: e in stable ==> multiset(passed)[e] == 1
  {
    AllPassed(Flatten(pairs), |Flatten(pairs)|, passed, stable);
  }

  /** All of a pair that is read to its end. */
  lemma NextPair(pairs: Layout, move: Move, k: nat)
    requires k + 1 < |pairs|
    ensures GivenBelow(pairs, move, k + 1, 0) == GivenBelow(pairs, move, k, |pairs[k]|)
  {
  }

  /** What one id adds: its own entry, unless it is behind one to move. */
  lemma StepAnswers(pairs: Layout, move: Move, k: nat, id: nat)
    requires MoveFits(pairs, move) && k < |pairs| && id < |pairs[k]|
    ensures GivenBelow(pairs, move, k, id + 1) ==
            GivenBelow(pairs, move, k, id) + Item1(Answer(pairs[k], MoveIn(move, k), id))
    ensures Answer(pairs[k], MoveIn(move, k), id).Some? ==> !Answer(pairs[k], MoveIn(move, k), id).value.hidden
    ensures !Overtook(pairs, move, false, k, id + 1) ==>
            Answer(pairs[k], MoveIn(move, k), id) == if pairs[k][id].hidden then M.None else M.Some(pairs[k][id])
  {
  }

  /** The commit and the fix-up, for one open directory. */
  method CommitTo(pairs0: Layout, j: nat, attrs: seq<Attr>, pieces: Layout, detached0: bool, k0: nat, id0: nat,
      pos0: int, ghost passed: seq<Entry>, ghost stable: set<Entry>)
    returns (pairs: Layout, detached: bool, k: nat, id: nat, pos: int)
    requires Reading(pairs0, detached0, k0, id0, passed, stable) && j < |pairs0|
    requires FitsAll(pairs0[j], attrs, Others(pairs0, j))
    requires !Drops(pairs0, j, attrs) ==> Pieces(pieces, ApplyAll(pairs0[j], attrs, Others(pairs0, j)), j)
    ensures Reading(pairs, detached, k, id, passed, stable - Deleted(pairs0[j], attrs, Others(pairs0, j)))
    ensures pairs == Spliced(pairs0, j, if Drops(pairs0, j, attrs) then [] else pieces)
    ensures Flatten(pairs) ==
            Flatten(pairs0[..j]) + ApplyAll(pairs0[j], attrs, Others(pairs0, j)) + Flatten(pairs0[j + 1..])
    ensures pos == if !detached0 && k0 == j then FixEach(id0, pos0, attrs).1 else pos0
    ensures Reader(detached, k, id, pos) == Follow(pairs0, Change(j, attrs, pieces), Reader(detached0, k0, id0, pos0))
  {
    hide Reading, FitsAll, ApplyAll, Deleted, Others, Drops, Pieces, Spliced, Flatten, PlaceOf, Chained, Tracks, Stands;
    var here := !detached0 && k0 == j;
    ghost var w := if here then Here else if detached0 || k0 > j then Behind else Before;
    ghost var g;
    OthersAre(pairs0, j);
    ReadingIs(pairs0, detached0, k0, id0, passed, stable, j, w);
    ghost var g0 := PlaceOf(pairs0, detached0, k0, id0);
    id, pos, g := FixAll(pairs0[j], attrs, id0, pos0, here, w, Flatten(pairs0[..j]), Flatten(pairs0[j + 1..]), g0,
        passed, stable);
    CommittedSizes(pairs0, j, attrs, w, detached0, k0, id0, id, g0, g);
    SplicedSizes(pairs0, j, attrs, pieces);
    SplicedChained(pairs0, j, attrs, pieces);
    detached, k, id := Replace(pairs0, j, attrs, pieces, detached0, k0, id0, id, g);
    var with := if Drops(pairs0, j, attrs) then [] else pieces;
    SplicedFlatten(pairs0, j, with);
    pairs := Spliced(pairs0, j, with);
    IsReading(pairs, detached, k, id, passed, stable - Deleted(pairs0[j], attrs, Others(pairs0, j)));
  }

  lemma OthersAre(pairs: Layout, j: nat)
    requires j < |pairs|
    ensures Others(pairs, j) == Flatten(pairs[..j]) + Flatten(pairs[j + 1..])
  {
  }

  lemma IsReading(pairs: Layout, detached: bool, k: nat, id: nat, passed: seq<Entry>, stable: set<Entry>)
    requires Chained(pairs) && (!detached ==> k < |pairs| && id <= |pairs[k]|)
    requires Tracks(Flatten(pairs), PlaceOf(pairs, detached, k, id), passed, stable)
    ensures Reading(pairs, detached, k, id, passed, stable)
  {
  }

  /** What a commit to a pair finds. */
  lemma ReadingIs(pairs: Layout, detached: bool, k: nat, id: nat, passed: seq<Entry>, stable: set<Entry>, j: nat,
        w: Where)
    requires Reading(pairs, detached, k, id, passed, stable) && j < |pairs|
    requires w == if !detached && k == j then Here else if detached || k > j then Behind else Before
    ensures Chained(pairs) && (!detached ==> k < |pairs| && id <= |pairs[k]|)
    ensures var g := PlaceOf(pairs, detached, k, id);
            && Stands(w, Flatten(pairs[..j]), pairs[j], g, id)
            && Tracks(Flatten(pairs[..j]) + pairs[j] + Flatten(pairs[j + 1..]), g, passed, stable)
  {
    hide Flatten, Tracks;
    FlattenAt(pairs, j);
    WhereStands(pairs, j, detached, k, id);
  }

  lemma CommittedSizes(pairs: Layout, j: nat, attrs: seq<Attr>, w: Where, detached: bool, k: nat, id: nat, nid: nat,
        g0: nat, g: nat)
    requires j < |pairs| && FitsAll(pairs[j], attrs, Others(pairs, j))
            && (!detached ==> k < |pairs| && id <= |pairs[k]|)
    requires w == if !detached && k == j then Here else if detached || k > j then Behind else Before
    requires g0 == PlaceOf(pairs, detached, k, id)
    requires var entries := ApplyAll(pairs[j], attrs, Others(pairs, j));
             && Stands(w, Flatten(pairs[..j]), entries, g, nid) && (w != Here ==> nid == id)
             && (w == Before ==> g == g0) && (w == Behind ==> g - |entries| == g0 - |pairs[j]|)
    ensures !detached ==> k < |pairs| && (k != j ==> nid == id <= |pairs[k]|)
    ensures var n := |ApplyAll(pairs[j], attrs, Others(pairs, j))|;
            if detached then g - n == |Flatten(pairs)| - |pairs[j]|
            else if k == j then g == |Flatten(pairs[..j])| + nid && nid <= n
            else g == |Flatten(pairs[..k])| + id + if k > j then n - |pairs[j]| else 0
  {
  }

  lemma WhereStands(pairs: Layout, j: nat, detached: bool, k: nat, id: nat)
    requires j < |pairs| && (!detached ==> k < |pairs| && id <= |pairs[k]|)
    ensures var g := if detached then |Flatten(pairs)| else |Flatten(pairs[..k])| + id;
            if detached || k > j then g >= |Flatten(pairs[..j])| + |pairs[j]|
            else if k == j then g == |Flatten(pairs[..j])| + id
            else g <= |Flatten(pairs[..j])|
  {
    hide Flatten;
    FlattenAt(pairs, j);
    if !detached && k > j {
      FlattenConcat(pairs[..j + 1], pairs[j + 1..k]);
      assert pairs[..k] == pairs[..j + 1] + pairs[j + 1..k];
    } else if !detached && k < j {
      FlattenAt(pairs, k);
      FlattenConcat(pairs[..k + 1], pairs[k + 1..j]);
      assert pairs[..j] == pairs[..k + 1] + pairs[k + 1..j];
    }
  }

  /** Places in the listing, by pair. */
  lemma PlaceAt(pairs: Layout, k: nat)
    requires k < |pairs|
    ensures var base := |Flatten(pairs[..k])|;
            && |Flatten(pairs[..k + 1])| == base + |pairs[k]| <= |Flatten(pairs)|
            && (k + 1 == |pairs| ==> base + |pairs[k]| == |Flatten(pairs)|)
            && forall i :: 0 <= i < |pairs[k]| ==> Flatten(pairs)[base + i] == pairs[k][i]
  {
    hide Flatten;
    FlattenAt(pairs, k);
    if k + 1 == |pairs| {
      assert pairs[..k + 1] == pairs;
    }
  }

  lemma AllPassed(list: seq<Entry>, g: nat, passed: seq<Entry>, stable: set<Entry>)
    requires Tracks(list, g, passed, stable) && g == |list|
    ensures forall e :: e in stable ==> multiset(passed)[e] == 1
  {
    assert list[..g] == list;
  }
}
