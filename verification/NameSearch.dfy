/** Finding names in a directory.

    A lookup by name scans the log forwards once and keeps the best tag seen so far: the one whose
    name matches, or else the first one with a greater name, whose place the name would take. Later
    creates and deletes move that tag along. The module proves that the scan finds exactly the
    entry that has the name after replaying the whole log, and otherwise the place that keeps the
    directory sorted; that the logs littlefs writes allow this; and what the scan answers while a
    move out of the directory is pending. */
module NameSearch {
  import opened MetaLog
  import opened Compaction
  import opened Directory

  type Name = seq<bv8>

  // ---------------------------------------------------------------- the order of names

  datatype Order = LT | EQ | GT

  /** lfs_dir_find_match: the common part decides, and else the longer name comes first. */
  function Compare(disk: Name, name: Name): Order {
    if disk == [] && name == [] then EQ
    else if disk == [] then GT
    else if name == [] then LT
    else if disk[0] < name[0] then LT
    else if disk[0] > name[0] then GT
    else Compare(disk[1..], name[1..])
  }

  /** The names agree up to an index, where the first one has the smaller byte. */
  ghost predicate SmallerAt(a: Name, b: Name, k: nat) {
    k < |a| && k < |b| && a[..k] == b[..k] && a[k] < b[k]
  }

  ghost predicate ProperPrefix(a: Name, b: Name) {
    |a| < |b| && b[..|a|] == a
  }

  /** The name on disk comes first if the other one is a proper prefix of it, or if it has the
      smaller byte where the two differ first; and the other way round. */
  lemma {:induction false} CompareIs(disk: Name, name: Name)
    ensures Compare(disk, name) == LT <==> ProperPrefix(name, disk) || exists k :: SmallerAt(disk, name, k)
    ensures Compare(disk, name) == GT <==> ProperPrefix(disk, name) || exists k :: SmallerAt(name, disk, k)
    decreases |disk|
  {
    if disk != [] && name != [] && disk[0] == name[0] {
      var d, n := disk[1..], name[1..];
      CompareIs(d, n);
      TailPrefix(disk, name);
      TailPrefix(name, disk);
      TailSmaller(disk, name);
      TailSmaller(name, disk);
    } else if disk != [] && name != [] {
      assert SmallerAt(if disk[0] < name[0] then disk else name, if disk[0] < name[0] then name else disk, 0);
      forall k: nat | k > 0
        ensures !SmallerAt(disk, name, k) && !SmallerAt(name, disk, k)
      {
        FirstDiffers(disk, name, k);
        FirstDiffers(name, disk, k);
      }
    }
  }

  lemma FirstDiffers(a: Name, b: Name, k: nat)
    requires a != [] && b != [] && a[0] != b[0] && k > 0
    ensures !SmallerAt(a, b, k)
  {
    if k < |a| && k < |b| {
      assert a[..k][0] == a[0] && b[..k][0] == b[0];
    }
  }

  lemma TailPrefix(a: Name, b: Name)
    requires a != [] && b != [] && a[0] == b[0]
    ensures ProperPrefix(a, b) <==> ProperPrefix(a[1..], b[1..])
  {
    if |a| <= |b| {
      assert b[..|a|] == [b[0]] + b[1..][..|a| - 1];
      assert a == [a[0]] + a[1..];
    }
  }

  lemma TailSmaller(a: Name, b: Name)
    requires a != [] && b != [] && a[0] == b[0]
    ensures (exists k :: SmallerAt(a, b, k)) <==> (exists k :: SmallerAt(a[1..], b[1..], k))
  {
    if k: nat :| SmallerAt(a, b, k) {
      assert a[..k] == [a[0]] + a[1..][..k - 1] && b[..k] == [b[0]] + b[1..][..k - 1];
      assert SmallerAt(a[1..], b[1..], k - 1);
    }
    if k: nat :| SmallerAt(a[1..], b[1..], k) {
      assert a[..k + 1] == [a[0]] + a[1..][..k] && b[..k + 1] == [b[0]] + b[1..][..k];
      assert SmallerAt(a, b, k + 1);
    }
  }

  lemma {:induction false} CompareFlip(a: Name, b: Name)
    ensures Compare(a, b) == LT <==> Compare(b, a) == GT
    ensures Compare(a, b) == EQ <==> a == b
    decreases |a|
  {
    if a != [] && b != [] {
      CompareFlip(a[1..], b[1..]);
      assert a == [a[0]] + a[1..] && b == [b[0]] + b[1..];
    }
  }

  lemma {:induction false} CompareTrans(a: Name, b: Name, c: Name)
    requires Compare(a, b) == LT && Compare(b, c) == LT
    ensures Compare(a, c) == LT
    decreases |a|
  {
    if a != [] && b != [] && c != [] && a[0] == b[0] == c[0] {
      CompareTrans(a[1..], b[1..], c[1..]);
    }
  }

  /** Whatever is behind a greater name is greater, whatever is in front of a smaller one is
      smaller. */
  lemma CompareVia(a: Name, b: Name, name: Name)
    ensures Compare(a, b) == GT && Compare(b, name) != LT ==> Compare(a, name) == GT
    ensures Compare(a, b) == LT && Compare(b, name) != GT ==> Compare(a, name) == LT
  {
    CompareFlip(a, b);
    CompareFlip(b, name);
    CompareFlip(a, name);
    if Compare(a, b) == LT && Compare(b, name) == LT {
      CompareTrans(a, b, name);
    }
    if Compare(a, b) == GT && Compare(b, name) == GT {
      CompareFlip(name, b);
      CompareFlip(b, a);
      CompareFlip(name, a);
      CompareTrans(name, b, a);
    }
  }

  // ---------------------------------------------------------------- names of a directory

  /** The name of an entry; the superblock's entry has none that can be looked up. */
  function NameAt(dir: seq<Entry>, i: nat): Option<Name> {
    match Slot(At(dir, i), NAME)
    case None => None
    case Some(a) => if a.typ < 0x80 then Some(a.data) else None
  }

  ghost predicate Sorted(dir: seq<Entry>) {
    forall i: nat, j: nat :: i < j && NameAt(dir, i).Some? && NameAt(dir, j).Some? ==>
      Compare(NameAt(dir, i).value, NameAt(dir, j).value) == LT
  }

  /** The names in front of a place are smaller, those behind it greater. */
  ghost predicate Fits(dir: seq<Entry>, id: nat, name: Name) {
    forall i: nat :: i != id && NameAt(dir, i).Some? ==>
        Compare(NameAt(dir, i).value, name) == if i < id then LT else GT
  }

  /** A tag that keeps a directory searchable: names are given once, in sorted order, and whatever
      comes behind a deleted entry has one. */
  ghost predicate StepOk(dir: seq<Entry>, r: Rec) {
    && ValidRec(r)
    && (r.tag.Type1() == 0 ==>
          && FindSlot(At(dir, r.tag.id), NAME) == None && !r.tag.IsRemoved()
          && (r.tag.typ < 0x80 ==> Fits(dir, r.tag.id, r.data)))
    && (r.tag.typ == TYPE_DELETE && r.tag.id + 1 < |dir| ==> NameAt(dir, r.tag.id + 1).Some?)
  }

  /** The logs that can be searched. In a compacted part names may come in any order. */
  ghost predicate Searchable(log: seq<Rec>)
    decreases |log|
  {
    log == [] ||
    var front, r := log[..|log| - 1], log[|log| - 1];
    Searchable(front) && StepOk(Replay(front), r) && (SpliceFree(log) || InRange(Replay(front), r))
  }

  /** What one tag does to the names. */
  lemma NameAfter(dir: seq<Entry>, r: Rec, i: nat)
    requires ValidRec(r) && (r.tag.Type1() == 0 ==> !r.tag.IsRemoved())
    ensures NameAt(Apply(dir, r), i) ==
            match IdBefore(r, i)
            case None => None
            case Some(p) =>
              if r.tag.Type1() == 0 && r.tag.id == i then (if r.tag.typ < 0x80 then Some(r.data) else None)
              else NameAt(dir, p)
    ensures FindSlot(At(Apply(dir, r), i), NAME) ==
            match IdBefore(r, i)
            case None => None
            case Some(p) => if r.tag.Type1() == 0 && r.tag.id == i then Some(AttrOf(r)) else FindSlot(At(dir, p), NAME)
  {
    ApplyAt(dir, r, i);
    match IdBefore(r, i)
    case None =>
    case Some(p) =>
      var e := At(dir, p);
      assert e + [] == e;
      FindLastSnoc(e, AttrOf(r), Type1, NAME);
  }

  // ---------------------------------------------------------------- the scan

  /** The best tag so far. One that is not valid marks a place. */
  datatype Best = NoBest | Best(typ: nat, id: nat, valid: bool)

  /** Splices move the best tag, and deleting its entry leaves its place. */
  function Moved(best: Best, r: Rec): Best {
    if best.NoBest? || r.tag.Type1() != 4 then best
    else if r.tag.typ == TYPE_DELETE && r.tag.id == best.id then best.(valid := false)
    else if r.tag.id <= best.id then
      best.(id := if best.id + r.tag.Splice() < 0 then 0 else best.id + r.tag.Splice())
    else best
  }

  function Matched(best: Best, r: Rec, name: Name): Best {
    if r.tag.typ >= 0x80 then best else
    match Compare(r.data, name)
    case EQ => Best(r.tag.typ, r.tag.id, true)
    case order =>
      if best.Best? && best.typ == r.tag.typ && best.id == r.tag.id then NoBest
      else if order == GT && (best.NoBest? || r.tag.id <= best.id) then Best(r.tag.typ, r.tag.id, false)
      else best
  }

  function Scan(log: seq<Rec>, name: Name): Best
    decreases |log|
  {
    if log == [] then NoBest
    else Matched(Moved(Scan(log[..|log| - 1], name), log[|log| - 1]), log[|log| - 1], name)
  }

  /** The best tag is the entry with the name, or the place where it would go. */
  ghost predicate Right(dir: seq<Entry>, best: Best, name: Name, spliced: bool) {
    match best
    case NoBest => forall i: nat :: NameAt(dir, i).Some? ==> Compare(NameAt(dir, i).value, name) == LT
    case Best(_, p, valid) =>
      if valid then NameAt(dir, p) == Some(name)
      else
        && (forall i: nat :: NameAt(dir, i).Some? ==> Compare(NameAt(dir, i).value, name) == if i < p then LT else GT)
        && (NameAt(dir, p).Some? || (spliced && p >= |dir|))
  }

  /** With the name at one place, the others are smaller in front of it and greater behind. */
  lemma AroundName(dir: seq<Entry>, p: nat, name: Name, i: nat)
    requires Sorted(dir) && NameAt(dir, p) == Some(name) && NameAt(dir, i).Some? && i != p
    ensures Compare(NameAt(dir, i).value, name) == if i < p then LT else GT
  {
    CompareFlip(NameAt(dir, i).value, name);
    CompareFlip(name, NameAt(dir, i).value);
  }

  lemma SortedCreate(dir: seq<Entry>, r: Rec)
    requires Sorted(dir) && ValidRec(r) && r.tag.typ == TYPE_CREATE
    ensures Sorted(Apply(dir, r))
  {
    hide NameAt, Apply;
    forall i: nat
      ensures NameAt(Apply(dir, r), i) == match IdBefore(r, i) case None => None case Some(p) => NameAt(dir, p)
    {
      NameAfter(dir, r, i);
    }
  }

  lemma SortedDelete(dir: seq<Entry>, r: Rec)
    requires Sorted(dir) && ValidRec(r) && r.tag.typ == TYPE_DELETE
    ensures Sorted(Apply(dir, r))
  {
    hide NameAt, Apply;
    forall i: nat
      ensures NameAt(Apply(dir, r), i) == NameAt(dir, if r.tag.id <= i then i + 1 else i)
    {
      NameAfter(dir, r, i);
    }
  }

  lemma SortedName(dir: seq<Entry>, r: Rec)
    requires Sorted(dir) && StepOk(dir, r) && r.tag.typ < 0x80
    ensures Sorted(Apply(dir, r))
  {
    hide NameAt, Apply;
    forall i: nat
      ensures NameAt(Apply(dir, r), i) == if i == r.tag.id then Some(r.data) else NameAt(dir, i)
    {
      NameAfter(dir, r, i);
    }
    forall i: nat | NameAt(dir, i).Some?
      ensures Compare(NameAt(dir, i).value, r.data) == GT <==> Compare(r.data, NameAt(dir, i).value) == LT
    {
      CompareFlip(r.data, NameAt(dir, i).value);
    }
  }

  lemma StillSorted(dir: seq<Entry>, r: Rec)
    requires Sorted(dir) && StepOk(dir, r)
    ensures Sorted(Apply(dir, r))
  {
    hide NameAt, Apply;
    if r.tag.typ == TYPE_CREATE {
      SortedCreate(dir, r);
    } else if r.tag.typ == TYPE_DELETE {
      SortedDelete(dir, r);
    } else if r.tag.typ < 0x80 {
      SortedName(dir, r);
    } else {
      OtherStep(dir, r);
    }
  }

  lemma OtherStep(dir: seq<Entry>, r: Rec)
    requires StepOk(dir, r) && r.tag.typ != TYPE_CREATE && r.tag.typ != TYPE_DELETE && r.tag.typ >= 0x80
    ensures forall i: nat :: NameAt(Apply(dir, r), i) == NameAt(dir, i)
  {
    hide Apply;
    forall i: nat
      ensures NameAt(Apply(dir, r), i) == NameAt(dir, i)
    {
      NameAfter(dir, r, i);
    }
  }

  lemma CreateRight(dir: seq<Entry>, r: Rec, best: Best, name: Name, spliced: bool)
    requires Right(dir, best, name, spliced) && InRange(dir, r) && r.tag.typ == TYPE_CREATE
    ensures Right(Apply(dir, r), Moved(best, r), name, true)
  {
    hide NameAt;
    ApplyLength(dir, r);
    forall i: nat
      ensures NameAt(Apply(dir, r), i) == match IdBefore(r, i) case None => None case Some(p) => NameAt(dir, p)
    {
      NameAfter(dir, r, i);
    }
    hide Apply;
  }

  lemma DeleteRight(dir: seq<Entry>, r: Rec, best: Best, name: Name, spliced: bool)
    requires Sorted(dir) && Right(dir, best, name, spliced) && InRange(dir, r) && StepOk(dir, r)
            && r.tag.typ == TYPE_DELETE
    ensures Right(Apply(dir, r), Moved(best, r), name, true)
  {
    hide NameAt;
    ApplyLength(dir, r);
    forall i: nat
      ensures NameAt(Apply(dir, r), i) == NameAt(dir, if r.tag.id <= i then i + 1 else i)
    {
      NameAfter(dir, r, i);
    }
    hide Apply;
    if best.Best? && best.valid && best.id == r.tag.id {
      forall i: nat | i != best.id && NameAt(dir, i).Some?
        ensures Compare(NameAt(dir, i).value, name) == if i < best.id then LT else GT
      {
        AroundName(dir, best.id, name, i);
      }
    }
  }

  /** A new name leaves the best tag right: it matches, it is the first greater one, or it changes
      nothing. */
  lemma NameRight(dir: seq<Entry>, r: Rec, best: Best, name: Name, spliced: bool)
    requires Sorted(dir) && Right(dir, best, name, spliced) && StepOk(dir, r) && r.tag.typ < 0x80
    requires !spliced || r.tag.id < |dir|
    ensures Right(Apply(dir, r), Matched(best, r, name), name, spliced)
  {
    hide NameAt, Apply;
    var id, d := r.tag.id, r.data;
    forall i: nat
      ensures NameAt(Apply(dir, r), i) == if i == id then Some(d) else NameAt(dir, i)
      ensures NameAt(dir, id) == None
    {
      NameAfter(dir, r, i);
      NoNameYet(dir, id);
    }
    CompareFlip(d, name);
    forall i: nat | i != id && NameAt(dir, i).Some?
      ensures i > id && Compare(d, name) != LT ==> Compare(NameAt(dir, i).value, name) == GT
      ensures i < id && Compare(d, name) != GT ==> Compare(NameAt(dir, i).value, name) == LT
    {
      CompareVia(NameAt(dir, i).value, d, name);
    }
    NameSize(dir, r);
  }

  lemma NoNameYet(dir: seq<Entry>, i: nat)
    ensures FindSlot(At(dir, i), NAME) == None ==> NameAt(dir, i) == None
  {
  }

  lemma NameSize(dir: seq<Entry>, r: Rec)
    requires r.tag.typ < 0x80
    ensures r.tag.id < |dir| ==> |Apply(dir, r)| == |dir|
  {
  }

  lemma OtherSize(dir: seq<Entry>, r: Rec)
    requires InRange(dir, r) && r.tag.Type1() != 4
    ensures |Apply(dir, r)| == |dir|
  {
  }

  lemma OtherRight(dir: seq<Entry>, r: Rec, best: Best, name: Name, spliced: bool)
    requires Right(dir, best, name, spliced) && StepOk(dir, r) && r.tag.Type1() != 4 && r.tag.typ >= 0x80
    requires spliced ==> InRange(dir, r)
    ensures Right(Apply(dir, r), best, name, spliced)
  {
    hide NameAt, Apply;
    OtherStep(dir, r);
    if spliced {
      OtherSize(dir, r);
    }
  }

  lemma RightSpliced(dir: seq<Entry>, best: Best, name: Name, spliced: bool)
    requires Right(dir, best, name, spliced)
    ensures Right(dir, best, name, true)
  {
  }

  /** The scan keeps the best tag right through every searchable log. */
  lemma {:induction false} ScanRight(log: seq<Rec>, name: Name)
    requires Searchable(log)
    ensures Sorted(Replay(log)) && Right(Replay(log), Scan(log, name), name, !SpliceFree(log))
    decreases |log|
  {
    hide Right, Sorted, StepOk, Matched, Moved, Apply, InRange;
    if log == [] {
      NothingRight(name);
    } else {
      var front, r := log[..|log| - 1], log[|log| - 1];
      var dir, best := Replay(front), Scan(front, name);
      ScanRight(front, name);
      StillSorted(dir, r);
      assert Replay(log) == Apply(dir, r);
      assert SpliceFree(log) ==> SpliceFree(front) && log[|log| - 1].tag.Type1() != 4;
      RightSpliced(dir, best, name, !SpliceFree(front));
      StepRight(dir, r, best, name, !SpliceFree(log));
    }
  }

  lemma NothingRight(name: Name)
    ensures Sorted(Replay([])) && Right(Replay([]), NoBest, name, false)
  {
    forall i: nat
      ensures NameAt(Replay([]), i) == None
    {
      SlotEmpty(NAME);
    }
  }

  lemma StepRight(dir: seq<Entry>, r: Rec, best: Best, name: Name, spliced: bool)
    requires Sorted(dir) && StepOk(dir, r) && Right(dir, best, name, spliced)
    requires if spliced then InRange(dir, r) else r.tag.Type1() != 4
    ensures Right(Apply(dir, r), Matched(Moved(best, r), r, name), name, spliced)
  {
    hide Right, Sorted, Apply, Fits, NameAt;
    if r.tag.typ == TYPE_CREATE {
      CreateRight(dir, r, best, name, spliced);
    } else if r.tag.typ == TYPE_DELETE {
      DeleteRight(dir, r, best, name, spliced);
    } else if r.tag.typ < 0x80 {
      NameRight(dir, r, best, name, spliced);
    } else {
      OtherRight(dir, r, best, name, spliced);
    }
  }

  /** The place a name would take. */
  function Place(best: Best, count: nat): nat {
    if best.Best? && best.id < count then best.id else count
  }

  /** The main result: the scan ends with a valid tag exactly if an entry has the name, and the tag
      has that entry's id; otherwise it ends with the place that keeps the directory sorted. */
  lemma ScanFinds(log: seq<Rec>, name: Name)
    requires Searchable(log)
    ensures var dir, best := Replay(log), Scan(log, name);
            && (forall i: nat :: NameAt(dir, i) == Some(name) <==> best.Best? && best.valid && best.id == i)
            && (!(best.Best? && best.valid) ==>
                  var place := Place(best, |dir|);
                  && (forall i: nat :: NameAt(dir, i).Some? ==>
                      Compare(NameAt(dir, i).value, name) == if i < place then LT else GT)
                  && (place < |dir| ==> NameAt(dir, place).Some?))
  {
    hide NameAt;
    var dir, best := Replay(log), Scan(log, name);
    ScanRight(log, name);
    forall i: nat
      ensures NameAt(dir, i).Some? ==> i < |dir|
    {
      Beyond(dir, i);
    }
    CompareFlip(name, name);
    if best.Best? && best.valid {
      forall i: nat | i != best.id
        ensures NameAt(dir, i) != Some(name)
      {
        if NameAt(dir, i).Some? {
          AroundName(dir, best.id, name, i);
        }
      }
    }
  }

  lemma Beyond(dir: seq<Entry>, i: nat)
    ensures NameAt(dir, i).Some? ==> i < |dir|
  {
    SlotEmpty(NAME);
  }

  // ---------------------------------------------------------------- the loop, and a pending move

  /** What a lookup in one pair returns: an entry, its place here, or that it must go on. */
  datatype Lookup = Found(id: nat) | Absent(at: nat) | Further(at: nat)

  /** The id shift for a pending move. */
  function Around(best: Best, move: Option<nat>): Best {
    if move.None? || best.NoBest? then best
    else if move.value == best.id then best.(valid := false)
    else if move.value < best.id then best.(id := best.id - 1)
    else best
  }

  function Outcome(best: Best, count: nat): Lookup {
    if best.Best? && best.valid then Found(best.id)
    else if best.Best? && best.id < count then Absent(best.id)
    else Further(count)
  }

  /** The part of lfs_dir_fetchmatch that matches names. */
  method FetchMatch(log: seq<Rec>, name: Name, move: Option<nat>) returns (found: Lookup)
    requires ValidLog(log) && Counted(log) && Searchable(log)
    ensures found == Outcome(Around(Scan(log, name), move), |Replay(log)|)
  {
    hide Replay, Searchable;
    var best, count: int := NoBest, 0;
    assert log[..0] == [];
    for k := 0 to |log|
      invariant best == Scan(log[..k], name) && count == FetchCount(log[..k])
    {
      var tag := log[k].tag;
      assert ValidRec(log[k]) && log[..k + 1][..k] == log[..k];
      if tag.Type1() == 0 {
        if tag.id >= count {
          count := tag.id + 1;
        }
      } else if tag.Type1() == 4 {
        count := count + tag.Splice();
        if best.Best? {
          if tag == Tag(TYPE_DELETE, best.id, 0) {
            best := best.(valid := false);
          } else if tag.id <= best.id {
            best := best.(id := best.id + tag.Splice());
          }
        }
      }
      // names of files and directories, but not the superblock's
      if tag.typ < 0x80 {
        var order := Compare(log[k].data, name);
        if order == EQ {
          best := Best(tag.typ, tag.id, true);
        } else if best.Best? && tag.typ == best.typ && tag.id == best.id {
          best := NoBest;
        } else if order == GT && (best.NoBest? || tag.id <= best.id) {
          best := Best(tag.typ, tag.id, false);
        }
      }
    }
    assert log[..|log|] == log;
    if move.Some? && best.Best? {
      if move.value == best.id {
        best := best.(valid := false);
      } else if move.value < best.id {
        best := best.(id := best.id - 1);
      }
    }
    if best.Best? && best.valid {
      return Found(best.id);
    } else if best.Best? && best.id < count {
      return Absent(best.id);
    }
    return Further(count);
  }

  /** While a move of id m is pending, a lookup by name does find every other entry, under the id it
      will have once the move is carried out. But looking that id up gives nothing for the entry
      right behind the moved one, so that it cannot be opened or passed through. */
  lemma PendingMatch(log: seq<Rec>, name: Name, m: nat, p: nat)
    requires Searchable(log) && NameAt(Replay(log), p) == Some(name)
    ensures var found := Outcome(Around(Scan(log, name), Some(m)), |Replay(log)|);
            if p == m then !found.Found?
            else && found == Found(if m < p then p - 1 else p)
                 && (Synthetic(Some(m), found.id) == if p == m + 1 then None else Some(p))
  {
    ScanFinds(log, name);
  }

  // ---------------------------------------------------------------- compacted logs

  /** No two names for the same id. */
  predicate NamesDiffer(log: seq<Rec>) {
    forall i, j :: 0 <= i < j < |log| && log[i].tag.Type1() == 0 && log[j].tag.Type1() == 0 ==>
        log[i].tag.id != log[j].tag.id
  }

  lemma KeptByName(ft: Tag, m: Mattr, t: Tag)
    requires ft.Type1() == 0 && IsPlain(m) && m.tag.Type1() == 0 && FilterBy(ft, m) == Some(t)
    ensures t == ft && m.tag.id != ft.id
  {
  }

  /** A name that survives the filter is the last one for its entry: nothing behind it is copied as
      a name for the same id. */
  lemma {:induction false} NameIsLast(items: seq<Mattr>, sel: Sel, begin: nat, end: nat, diff: int, ft: Tag, t: Tag)
    requires ValidItems(items) && ft.Type1() == 0 && Filtered(items, ft) == Some(t) && begin + diff >= 0
    ensures forall r :: r in Traverse(items, sel, begin, end, diff) && r.tag.Type1() == 0 ==> r.tag.id != t.id + diff
    decreases |items|
  {
    hide FilterBy, Expand, Back, Emit;
    if items != [] {
      var m, rest := items[0], items[1..];
      var next := FilterBy(ft, m).value;
      assert IsPlain(m) || IsBatch(m) || IsNoop(m);
      FilterByFollows(ft, m, 0);
      NameIsLast(rest, sel, begin, end, diff, next, t);
      forall r | r in Head(items, sel, begin, end, diff) && r.tag.Type1() == 0
        ensures r.tag.id != t.id + diff
      {
        HeadName(items, sel, begin, end, diff, r);
        KeptByName(ft, m, next);
        FilterFollows(rest, m.tag, 0);
        FilterFollows(rest, ft, 0);
      }
    }
  }

  /** A name is copied only as what is left of the item's own tag. */
  lemma HeadName(items: seq<Mattr>, sel: Sel, begin: nat, end: nat, diff: int, r: Rec)
    requires ValidItems(items) && items != [] && begin + diff >= 0
    requires r in Head(items, sel, begin, end, diff) && r.tag.Type1() == 0
    ensures var m, u := items[0], Filtered(items[1..], items[0].tag);
            && IsPlain(m) && m.tag.Type1() == 0 && u.Some? && r.tag.id == u.value.id + diff
            && Head(items, sel, begin, end, diff) == [r]
  {
    hide Filtered;
    var m := items[0];
    assert IsPlain(m) || IsBatch(m) || IsNoop(m);
    FilterFollows(items[1..], m.tag, 0);
  }

  lemma {:induction false} TraverseNamesDiffer(items: seq<Mattr>, sel: Sel, begin: nat, end: nat, diff: int)
    requires ValidItems(items) && begin + diff >= 0
    ensures NamesDiffer(Traverse(items, sel, begin, end, diff))
    decreases |items|
  {
    hide Head;
    if items != [] {
      var head, rest := Head(items, sel, begin, end, diff), Traverse(items[1..], sel, begin, end, diff);
      TraverseNamesDiffer(items[1..], sel, begin, end, diff);
      forall r, s | r in head && s in rest && r.tag.Type1() == 0 && s.tag.Type1() == 0
        ensures r.tag.id != s.tag.id && head == [r]
      {
        HeadName(items, sel, begin, end, diff, r);
        NameIsLast(items[1..], sel, begin, end, diff, items[0].tag, Filtered(items[1..], items[0].tag).value);
      }
      forall i, j | 0 <= i < j < |head| && head[i].tag.Type1() == 0 && head[j].tag.Type1() == 0
        ensures false
      {
        HeadName(items, sel, begin, end, diff, head[i]);
      }
    }
  }

  lemma {:induction false} NoNameSet(log: seq<Rec>, i: nat)
    requires ValidLog(log) && SpliceFree(log)
    requires forall k :: 0 <= k < |log| && log[k].tag.Type1() == 0 ==> log[k].tag.id != i
    ensures FindSlot(At(Replay(log), i), NAME) == None
    decreases |log|
  {
    if log == [] {
      SlotEmpty(NAME);
    } else {
      var front, r := log[..|log| - 1], log[|log| - 1];
      assert ValidRec(r) && log[|log| - 1].tag.Type1() != 4;
      NoNameSet(front, i);
      SetsName(front, r, i);
    }
  }

  lemma SetsName(front: seq<Rec>, r: Rec, i: nat)
    requires ValidRec(r) && r.tag.Type1() != 4
    ensures FindSlot(At(Replay(front + [r]), i), NAME) ==
            if r.tag.Type1() == 0 && r.tag.id == i then Some(AttrOf(r)) else FindSlot(At(Replay(front), i), NAME)
    ensures Replay(front + [r]) == Apply(Replay(front), r)
  {
    assert (front + [r])[..|front + [r]| - 1] == front;
    ApplyAt(Replay(front), r, i);
    var e := At(Replay(front), i);
    assert e + [] == e;
    FindLastSnoc(e, AttrOf(r), Type1, NAME);
  }

  /** In a log without splices that names each id once, a name that was given stays. */
  lemma {:induction false} NameStays(log: seq<Rec>, k: nat, i: nat)
    requires ValidLog(log) && SpliceFree(log) && NamesDiffer(log) && k <= |log|
    ensures var now, then_ := FindSlot(At(Replay(log[..k]), i), NAME), FindSlot(At(Replay(log), i), NAME);
            now.Some? ==> now == then_
    decreases |log| - k
  {
    if k == |log| {
      assert log[..k] == log;
    } else {
      var r := log[k];
      assert ValidRec(r) && log[k].tag.Type1() != 4;
      assert log[..k + 1] == log[..k] + [r];
      SetsName(log[..k], r, i);
      if r.tag.Type1() == 0 && r.tag.id == i {
        NoNameSet(log[..k], i);
      }
      NameStays(log, k + 1, i);
    }
  }

  /** Such a log can be searched, in whatever order it gives the names, if the names it ends up with
      are sorted. */
  lemma {:induction false} CopySearchable(log: seq<Rec>, k: nat)
    requires ValidLog(log) && SpliceFree(log) && NamesDiffer(log) && NamesKept(log) && Sorted(Replay(log)) && k <= |log|
    ensures Searchable(log[..k])
    decreases k
  {
    hide Replay, Sorted, NameAt, Slot;
    if k > 0 {
      var front, r := log[..k - 1], log[k - 1];
      CopySearchable(log, k - 1);
      assert log[..k][..k - 1] == front && log[..k] == front + [r];
      assert ValidRec(r);
      if r.tag.Type1() == 0 {
        NoNameSet(front, r.tag.id);
        assert !log[k - 1].tag.IsRemoved();
        if r.tag.typ < 0x80 {
          NamesFit(log, k);
        }
      }
      assert SpliceFree(log[..k]);
    }
  }

  lemma NamesFit(log: seq<Rec>, k: nat)
    requires ValidLog(log) && SpliceFree(log) && NamesDiffer(log) && NamesKept(log) && Sorted(Replay(log))
    requires 0 < k <= |log| && log[k - 1].tag.typ < 0x80
    ensures Fits(Replay(log[..k - 1]), log[k - 1].tag.id, log[k - 1].data)
  {
    hide Replay;
    var front, r := log[..k - 1], log[k - 1];
    assert ValidRec(r) && !log[k - 1].tag.IsRemoved();
    assert log[..k] == front + [r];
    SetsName(front, r, r.tag.id);
    NameStays(log, k, r.tag.id);
    assert NameAt(Replay(log), r.tag.id) == Some(r.data);
    forall i: nat | i != r.tag.id && NameAt(Replay(front), i).Some?
      ensures Compare(NameAt(Replay(front), i).value, r.data) == if i < r.tag.id then LT else GT
    {
      NameStays(log, k - 1, i);
      assert NameAt(Replay(log), i) == NameAt(Replay(front), i);
      AroundName(Replay(log), r.tag.id, r.data, i);
    }
  }

  /** Whatever range a compaction writes, it can be searched and is sorted, if the directory is
      sorted. */
  lemma RangeSearchable(log: seq<Rec>, attrs: seq<Mattr>, begin: nat, end: nat)
    requires ValidCommit(log, attrs) && begin <= end <= ID_NONE && Sorted(Replay(log + Expand(attrs)))
    ensures Searchable(RangeLog(log, attrs, begin, end))
    ensures forall i: nat :: NameAt(Replay(RangeLog(log, attrs, begin, end)), i) ==
              if begin + i < end then NameAt(Replay(log + Expand(attrs)), begin + i) else None
  {
    hide Replay, Expand, Slot, Traverse, NamesDiffer, NamesKept, ValidCommit, Searchable;
    var copy, full := Compacted(log, attrs, begin, end), Replay(log + Expand(attrs));
    forall i: nat
      ensures NameAt(Replay(copy), i) == if begin + i < end then NameAt(full, begin + i) else None
    {
      CompactionPreservesMeaning(log, attrs, begin, end, i, NAME);
    }
    CompactedOnce(log, attrs, begin, end);
    PartSorted(full, Replay(copy), begin, end);
    CompactionPreservesMeaning(log, attrs, begin, end, 0, NAME);
    CopySearchable(copy, |copy|);
    assert copy[..|copy|] == copy;
    CloseSearchable(copy);
  }

  lemma CompactedOnce(log: seq<Rec>, attrs: seq<Mattr>, begin: nat, end: nat)
    requires ValidCommit(log, attrs) && begin <= end <= ID_NONE
    ensures NamesDiffer(Compacted(log, attrs, begin, end)) && NamesKept(Compacted(log, attrs, begin, end))
  {
    TraverseNamesDiffer(Plain(log) + attrs, ForCompact, begin, end, -(begin as int));
    TraverseNamesKept(Plain(log) + attrs, ForCompact, begin, end, -(begin as int));
  }

  lemma PartSorted(full: seq<Entry>, part: seq<Entry>, begin: nat, end: nat)
    requires Sorted(full)
    requires forall i: nat :: NameAt(part, i) == if begin + i < end then NameAt(full, begin + i) else None
    ensures Sorted(part)
  {
    hide NameAt;
  }

  lemma CloseSearchable(log: seq<Rec>)
    requires Searchable(log)
    ensures Searchable(log + [CLOSE]) && Replay(log + [CLOSE]) == Replay(log)
  {
    CloseShowsNothing(log);
    assert (log + [CLOSE])[..|log + [CLOSE]| - 1] == log;
  }

  // ---------------------------------------------------------------- commits

  /** A directory as littlefs keeps it: it can be searched, and all but the superblock's entry have
      names. */
  ghost predicate SearchDir(log: seq<Rec>) {
    GoodDir(log) && Searchable(log) && AllNamed(Replay(log))
  }

  ghost predicate AllNamed(dir: seq<Entry>) {
    forall i: nat :: 0 < i < |dir| ==> NameAt(dir, i).Some?
  }

  lemma SearchStep(log: seq<Rec>, r: Rec)
    requires Searchable(log) && InRange(Replay(log), r) && StepOk(Replay(log), r)
    ensures Searchable(log + [r]) && Replay(log + [r]) == Apply(Replay(log), r)
  {
    assert (log + [r])[..|log + [r]| - 1] == log;
  }

  /** Appended or compacted, a commit whose attributes keep a directory searchable does so. */
  lemma CommitSearchable(log: seq<Rec>, attrs: seq<Mattr>, compact: bool)
    requires GoodCommit(log, attrs) && Searchable(log + Expand(attrs)) && AllNamed(Replay(log + Expand(attrs)))
    ensures SearchDir(CommitLog(log, attrs, compact))
  {
    hide Replay, Expand, ValidCommit, GoodDir, Searchable, NameAt, Sound;
    var full := log + Expand(attrs);
    CommitGood(log, attrs, compact);
    ScanRight(full, []);
    if compact {
      RangeSearchable(log, attrs, 0, |Replay(full)|);
      RangeGood(log, attrs, 0, |Replay(full)|);
      assert |Listing(CommitLog(log, attrs, compact))| == |Replay(CommitLog(log, attrs, compact))|;
    } else {
      CloseSearchable(full);
    }
  }

  /** Deleting an entry keeps the rest in order. */
  lemma DeleteStep(log: seq<Rec>, id: nat)
    requires Searchable(log) && AllNamed(Replay(log)) && id < |Replay(log)| && id < ID_NONE
    ensures var after := log + [Rec(Tag(TYPE_DELETE, id, 0), [])];
            && Searchable(after) && AllNamed(Replay(after)) && |Replay(after)| == |Replay(log)| - 1
            && forall i: nat :: NameAt(Replay(after), i) == NameAt(Replay(log), if id <= i then i + 1 else i)
  {
    hide Replay, NameAt;
    var r := Rec(Tag(TYPE_DELETE, id, 0), []);
    SearchStep(log, r);
    ApplyLength(Replay(log), r);
    hide Apply;
    forall i: nat
      ensures NameAt(Apply(Replay(log), r), i) == NameAt(Replay(log), if id <= i then i + 1 else i)
    {
      NameAfter(Replay(log), r, i);
    }
  }

  lemma DeleteSearchable(log: seq<Rec>, id: nat, compact: bool)
    requires SearchDir(log) && id < |Listing(log)|
    ensures SearchDir(CommitLog(log, [Delete(id)], compact))
  {
    hide Replay, Searchable, AllNamed, OnDisk, Sound, CommitLog, GoodCommit;
    DeleteGood(log, id);
    DeleteStep(log, id);
    OneDelete(log, id);
    CommitSearchable(log, [Delete(id)], compact);
  }

  lemma OneDelete(log: seq<Rec>, id: nat)
    ensures log + Expand([Delete(id)]) == log + [Rec(Tag(TYPE_DELETE, id, 0), [])]
  {
    ExpandSingle(Delete(id));
  }

  /** The place that a lookup gives for a name, or the id it finds. */
  predicate IsPlace(log: seq<Rec>, newid: nat, prev: bool, name: Name) {
    Outcome(Scan(log, name), |Replay(log)|) ==
      if prev then Found(newid) else if newid < |Replay(log)| then Absent(newid) else Further(newid)
  }

  /** Making room for a name at its place. */
  lemma RoomStep(log: seq<Rec>, id: nat, name: Name)
    requires Searchable(log) && id <= |Replay(log)| && id < ID_NONE
    requires forall i: nat :: NameAt(Replay(log), i).Some? ==>
               Compare(NameAt(Replay(log), i).value, name) == if i < id then LT else GT
    ensures var room := log + [Rec(Tag(TYPE_CREATE, id, 0), [])];
            && Searchable(room) && |Replay(room)| == |Replay(log)| + 1
            && Fits(Replay(room), id, name) && FindSlot(At(Replay(room), id), NAME) == None
            && forall i: nat :: i != id ==> NameAt(Replay(room), i) == NameAt(Replay(log), if i < id then i else i - 1)
  {
    hide Replay, NameAt;
    var c := Rec(Tag(TYPE_CREATE, id, 0), []);
    SearchStep(log, c);
    ApplyLength(Replay(log), c);
    NameAfter(Replay(log), c, id);
    hide Apply;
    forall i: nat | i != id
      ensures NameAt(Apply(Replay(log), c), i) == NameAt(Replay(log), if i < id then i else i - 1)
    {
      NameAfter(Replay(log), c, i);
    }
  }

  lemma GiveName(log: seq<Rec>, id: nat, name: Attr)
    requires Searchable(log) && id < |Replay(log)| && id < ID_NONE && 0 < name.typ < 0x80 && name.size < SIZE_REMOVED
    requires Fits(Replay(log), id, name.data) && FindSlot(At(Replay(log), id), NAME) == None
    ensures var after := log + [Rec(Tag(name.typ, id, name.size), name.data)];
            && Searchable(after) && |Replay(after)| == |Replay(log)|
            && forall i: nat :: NameAt(Replay(after), i) == if i == id then Some(name.data) else NameAt(Replay(log), i)
  {
    hide Replay, NameAt, Fits;
    var r := Rec(Tag(name.typ, id, name.size), name.data);
    SearchStep(log, r);
    ApplyLength(Replay(log), r);
    hide Apply;
    forall i: nat
      ensures NameAt(Apply(Replay(log), r), i) == if i == id then Some(name.data) else NameAt(Replay(log), i)
    {
      NameAfter(Replay(log), r, i);
    }
  }

  /** Creating a name at its place keeps the directory sorted. */
  lemma CreateStep(log: seq<Rec>, id: nat, name: Attr)
    requires Searchable(log) && AllNamed(Replay(log)) && id <= |Replay(log)| < MAX_ENTRIES
    requires 0 < name.typ < 0x80 && name.size < SIZE_REMOVED
    requires forall i: nat :: NameAt(Replay(log), i).Some? ==>
               Compare(NameAt(Replay(log), i).value, name.data) == if i < id then LT else GT
    requires id == 0 ==> Replay(log) == [] || NameAt(Replay(log), 0).Some?
    ensures var after := log + [Rec(Tag(TYPE_CREATE, id, 0), [])] + [Rec(Tag(name.typ, id, name.size), name.data)];
            && Searchable(after) && AllNamed(Replay(after)) && |Replay(after)| == |Replay(log)| + 1
            && NameAt(Replay(after), id) == Some(name.data)
  {
    hide Replay, NameAt, Slot, Fits, Searchable, FindSlot;
    RoomStep(log, id, name.data);
    GiveName(log + [Rec(Tag(TYPE_CREATE, id, 0), [])], id, name);
  }

  lemma {:induction false} BatchStep(log: seq<Rec>, attrs: seq<Attr>, id: nat)
    requires Searchable(log) && AllNamed(Replay(log)) && id < |Replay(log)| && id < ID_NONE
    requires forall k :: 0 <= k < |attrs| ==> ValidBatchAttr(FROM_MOVE, attrs[k])
    ensures Searchable(log + BatchRecs(attrs, id)) && AllNamed(Replay(log + BatchRecs(attrs, id)))
    ensures |Replay(log + BatchRecs(attrs, id))| == |Replay(log)|
    ensures forall i: nat :: NameAt(Replay(log + BatchRecs(attrs, id)), i) == NameAt(Replay(log), i)
    decreases |attrs|
  {
    hide Replay, NameAt;
    if attrs == [] {
      assert log + BatchRecs(attrs, id) == log;
    } else {
      var n := |attrs| - 1;
      assert ValidBatchAttr(FROM_MOVE, attrs[n]);
      var front, r := log + BatchRecs(attrs[..n], id), Rec(Tag(attrs[n].typ, id, attrs[n].size), attrs[n].data);
      BatchStep(log, attrs[..n], id);
      assert log + BatchRecs(attrs, id) == front + [r];
      SearchStep(front, r);
      OtherStep(Replay(front), r);
      OtherSize(Replay(front), r);
    }
  }

  /** What a lookup found is where a name fits: its own entry gives way, or room is made at its
      place. */
  lemma PlaceFits(log: seq<Rec>, newid: nat, prev: bool, name: Name)
    requires Searchable(log) && IsPlace(log, newid, prev, name)
    ensures if prev then newid < |Replay(log)| else newid <= |Replay(log)|
    ensures forall i: nat :: NameAt(Replay(log), i).Some? && !(prev && i == newid) ==>
              Compare(NameAt(Replay(log), i).value, name) == if i < newid then LT else GT
    ensures newid == 0 && |Replay(log)| > 0 ==> NameAt(Replay(log), 0).Some?
  {
    hide Replay, NameAt, Searchable;
    ScanFinds(log, name);
    if prev {
      Beyond(Replay(log), newid);
      ScanRight(log, name);
      forall i: nat | NameAt(Replay(log), i).Some? && i != newid
        ensures Compare(NameAt(Replay(log), i).value, name) == if i < newid then LT else GT
      {
        AroundName(Replay(log), newid, name, i);
      }
    }
  }

  /** A rename puts the moved entry where looking up its new name says, and both directories stay
      searchable. */
  lemma RenameSearchable(log: seq<Rec>, src: seq<Rec>, from: nat, newid: nat, prev: bool, name: Attr,
        after: Option<nat>, compact: bool)
    requires SearchDir(log) && GoodDir(src) && from < |Listing(src)|
    requires 0 < name.typ < 0x80 && name.size < SIZE_REMOVED && IsPlace(log, newid, prev, name.data)
    requires prev || |Listing(log)| < MAX_ENTRIES
    requires after.Some? ==> after.value < |Listing(log)| + if prev then 0 else 1
    ensures SearchDir(CommitLog(log, RenameAttrs(newid, prev, name, MoveAttrs(src, from), after), compact))
  {
    hide Replay, Expand, OnDisk, Sound, MoveAttrs, CommitLog, Searchable, AllNamed, NameAt, RenameAttrs, BatchRecs,
         GoodCommit, IsPlace, RenamedListing, MovedView;
    var moved := MoveAttrs(src, from);
    GoodParts(src);
    GoodParts(log);
    MoveCarries(src, from, STRUCT);
    PlaceFits(log, newid, prev, name.data);
    RenameGood(log, src, from, newid, prev, name, after);
    RenameSteps(log, newid, prev, name, moved, after);
    CommitSearchable(log, RenameAttrs(newid, prev, name, moved, after), compact);
  }

  lemma RenameSteps(log: seq<Rec>, newid: nat, prev: bool, name: Attr, moved: seq<Attr>, after: Option<nat>)
    requires Searchable(log) && AllNamed(Replay(log)) && |Replay(log)| <= MAX_ENTRIES
    requires if prev then newid < |Replay(log)| else newid <= |Replay(log)| < MAX_ENTRIES
    requires forall i: nat :: NameAt(Replay(log), i).Some? && !(prev && i == newid) ==>
               Compare(NameAt(Replay(log), i).value, name.data) == if i < newid then LT else GT
    requires newid == 0 && |Replay(log)| > 0 ==> NameAt(Replay(log), 0).Some?
    requires 0 < name.typ < 0x80 && name.size < SIZE_REMOVED
    requires forall k :: 0 <= k < |moved| ==> ValidBatchAttr(FROM_MOVE, moved[k])
    requires after.Some? ==> after.value < |Replay(log)| + if prev then 0 else 1
    ensures var full := log + Expand(RenameAttrs(newid, prev, name, moved, after));
            Searchable(full) && AllNamed(Replay(full))
  {
    hide Replay, Expand, Searchable, NameAt, RenameAttrs, BatchRecs;
    ExpandRename(newid, prev, name, moved, after);
    var l1 := log;
    if prev {
      DeleteStep(log, newid);
      l1 := log + [Rec(Tag(TYPE_DELETE, newid, 0), [])];
    }
    CreateStep(l1, newid, name);
    var l3 := l1 + [Rec(Tag(TYPE_CREATE, newid, 0), [])] + [Rec(Tag(name.typ, newid, name.size), name.data)];
    BatchStep(l3, moved, newid);
    var l4 := l3 + BatchRecs(moved, newid);
    var full := log + Expand(RenameAttrs(newid, prev, name, moved, after));
    if after.Some? {
      DeleteStep(l4, after.value);
      assert full == l4 + [Rec(Tag(TYPE_DELETE, after.value, 0), [])];
    } else {
      assert full == l4;
    }
  }

  /** The attributes of a new file or directory: its id, its name and its struct. */
  function CreateAttrs(id: nat, name: Attr, struct: Attr): seq<Mattr> {
    [Create(id), Mattr(Tag(name.typ, id, name.size), Bytes(name.data)),
        Mattr(Tag(struct.typ, id, struct.size), Bytes(struct.data))]
  }

  /** Creating an entry where looking up its name says keeps the directory good and searchable, and
      the entry is found there from then on. */
  lemma CreateSearchable(log: seq<Rec>, id: nat, name: Attr, struct: Attr, compact: bool)
    requires SearchDir(log) && |Listing(log)| < MAX_ENTRIES && IsPlace(log, id, false, name.data)
    requires 0 < name.typ < 0x80 && name.size < SIZE_REMOVED && struct.typ / 0x100 == 2 && struct.typ < 0x800
            && struct.size < SIZE_REMOVED
    ensures SearchDir(CommitLog(log, CreateAttrs(id, name, struct), compact))
    ensures NameAt(Replay(log + Expand(CreateAttrs(id, name, struct))), id) == Some(name.data)
  {
    hide Replay, Sound, Expand, CommitLog, GoodCommit, NameAt, Searchable, AllNamed, IsPlace;
    var attrs := CreateAttrs(id, name, struct);
    var c, n := Rec(Tag(TYPE_CREATE, id, 0), []), Rec(Tag(name.typ, id, name.size), name.data);
    var s := Rec(Tag(struct.typ, id, struct.size), struct.data);
    PlaceFits(log, id, false, name.data);
    CreateStep(log, id, name);
    var made := log + [c] + [n];
    BatchStep(made, [struct], id);
    assert BatchRecs([struct], id) == [s];
    ExpandThree(attrs[0], attrs[1], attrs[2]);
    assert attrs == [attrs[0], attrs[1], attrs[2]];
    assert log + Expand(attrs) == made + [s];
    CreateGood(log, id, name, struct);
    CommitSearchable(log, attrs, compact);
  }

  lemma CreateGood(log: seq<Rec>, id: nat, name: Attr, struct: Attr)
    requires GoodDir(log) && id <= |Replay(log)| < MAX_ENTRIES
    requires 0 < name.typ < 0x80 && name.size < SIZE_REMOVED && struct.typ / 0x100 == 2 && struct.typ < 0x800
            && struct.size < SIZE_REMOVED
    ensures GoodCommit(log, CreateAttrs(id, name, struct))
  {
    hide Replay, Sound, Expand, Slot, OnDisk;
    var attrs := CreateAttrs(id, name, struct);
    var c, n := Rec(Tag(TYPE_CREATE, id, 0), []), Rec(Tag(name.typ, id, name.size), name.data);
    var s := Rec(Tag(struct.typ, id, struct.size), struct.data);
    CreateNamed(log, id, name);
    var made := log + [c] + [n];
    AppendOne(made, s);
    ExpandThree(attrs[0], attrs[1], attrs[2]);
    assert attrs == [attrs[0], attrs[1], attrs[2]];
    assert log + Expand(attrs) == made + [s];
    EntryNamed(name, struct);
    assert Replay(made)[id] == [name] && [name] + [struct] == [name, struct];
    assert Replay(made + [s]) == InsertAt(Replay(log), id, [name, struct]);
    CreateValid(log, id, name, struct);
  }

  lemma CreateValid(log: seq<Rec>, id: nat, name: Attr, struct: Attr)
    requires OnDisk(log) && id < ID_NONE
    requires 0 < name.typ < 0x80 && name.size < SIZE_REMOVED && struct.typ / 0x100 == 2 && struct.typ < 0x800
            && struct.size < SIZE_REMOVED
    ensures ValidCommit(log, CreateAttrs(id, name, struct))
  {
  }

  lemma EntryNamed(name: Attr, struct: Attr)
    requires 0 < name.typ < 0x80 && name.size < SIZE_REMOVED && struct.typ / 0x100 == 2
    ensures Slot([name, struct], NAME).Some?
  {
    var e := [name, struct];
    assert e[..1] == [name] && e[..1][..0] == [];
    assert FindSlot(e, NAME) == FindSlot(e[..1], NAME);
  }

  /** A new directory, and the formatted root. */
  lemma EmptySearchable()
    ensures SearchDir([CLOSE])
  {
    EmptyGood();
    CloseSearchable([]);
    assert [] + [CLOSE] == [CLOSE];
  }

  lemma FormatSearchable(superblock: Attr)
    requires superblock.typ == 0x201 && superblock.size < SIZE_REMOVED
    ensures SearchDir(CommitLog([], FormatAttrs(superblock), true))
  {
    hide Replay, Sound, Expand, CommitLog, GoodCommit;
    var attrs := FormatAttrs(superblock);
    var c, n, s := Rec(Tag(TYPE_CREATE, 0, 0), []), Rec(Tag(SUPERBLOCK.typ, 0, 8), SUPERBLOCK.data),
        Rec(Tag(0x201, 0, superblock.size), superblock.data);
    FormatGood(superblock);
    ExpandThree(attrs[0], attrs[1], attrs[2]);
    assert attrs == [attrs[0], attrs[1], attrs[2]];
    EmptyGood();
    SearchStep([], c);
    SlotEmpty(NAME);
    SearchStep([] + [c], n);
    SearchStep([] + [c] + [n], s);
    assert [] + Expand(attrs) == [] + [c] + [n] + [s];
    CommitSearchable([], attrs, true);
  }
}
