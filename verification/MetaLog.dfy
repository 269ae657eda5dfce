/** The metadata log of a directory block and what it means.

    A directory is an append-only log of tags. Its meaning is the list of entries obtained by
    replaying the log forwards; lfs_dir_getslice never builds that list but walks the log
    backwards with a running id shift. This module defines the replay and proves that the
    backward walk finds exactly what the replay holds, including the hybrid answers it gives
    while a move out of the directory is pending. */
module MetaLog {

  const TYPE_CREATE := 0x401
  const TYPE_DELETE := 0x4ff
  const ID_NONE := 0x3ff
  const SIZE_REMOVED := 0x3ff

  /** A tag, by its three bit fields: 11 bits of type, 10 of id, 10 of size. */
  datatype Tag = Tag(typ: nat, id: nat, size: nat) {

    predicate Fits() {
      typ < 0x800 && id < 0x400 && size < 0x400
    }

    /** The top three type bits, as an index: 0 name, 2 struct, 3 user attribute, 4 splice. */
    function Type1(): nat {
      typ / 0x100
    }

    /** The low eight type bits as a signed byte: how far a splice moves later ids. */
    function Splice(): int {
      var chunk := typ % 0x100;
      if chunk < 0x80 then chunk else chunk - 0x100
    }

    /** A size of all ones marks an attribute that was removed. */
    predicate IsRemoved() {
      size == SIZE_REMOVED
    }

    predicate IsFileAttr() {
      Type1() == 0 || Type1() == 2 || Type1() == 3
    }
  }

  datatype Rec = Rec(tag: Tag, data: seq<bv8>)

  datatype Attr = Attr(typ: nat, size: nat, data: seq<bv8>)

  /** Everything ever set for one id, oldest first. */
  type Entry = seq<Attr>

  datatype Option<+T> = None | Some(value: T)

  /** Splices that reach the disk are exactly creates and deletes, both without data. */
  predicate ValidRec(r: Rec) {
    && r.tag.Fits()
    && (r.tag.Type1() == 4 ==> (r.tag.typ == TYPE_CREATE || r.tag.typ == TYPE_DELETE) && r.tag.size == 0)
  }

  predicate ValidLog(log: seq<Rec>) {
    forall k :: 0 <= k < |log| ==> ValidRec(log[k])
  }

  // ---------------------------------------------------------------- replay

  function AttrOf(r: Rec): Attr {
    Attr(r.tag.typ, r.tag.size, r.data)
  }

  function At(dir: seq<Entry>, id: nat): Entry {
    if id < |dir| then dir[id] else []
  }

  /** Makes room for `n` entries. */
  function Pad(dir: seq<Entry>, n: nat): (r: seq<Entry>)
    ensures |r| == if |dir| < n then n else |dir|
    decreases n - |dir|
  {
    if |dir| < n then Pad(dir + [[]], n) else dir
  }

  lemma PadAt(dir: seq<Entry>, n: nat, id: nat)
    ensures At(Pad(dir, n), id) == At(dir, id)
    decreases n - |dir|
  {
  }

  /** What one tag does to the list of entries. */
  function Apply(dir: seq<Entry>, r: Rec): seq<Entry> {
    var id := r.tag.id;
    if r.tag.typ == TYPE_CREATE then
      var p := Pad(dir, id);
      p[..id] + [[]] + p[id..]
    else if r.tag.typ == TYPE_DELETE then
      if id < |dir| then dir[..id] + dir[id + 1..] else dir
    else if r.tag.IsFileAttr() then
      var p := Pad(dir, id + 1);
      p[id := p[id] + [AttrOf(r)]]
    else
      dir
  }

  function ReplayFrom(dir: seq<Entry>, log: seq<Rec>): seq<Entry>
    decreases |log|
  {
    if log == [] then dir else Apply(ReplayFrom(dir, log[..|log| - 1]), log[|log| - 1])
  }

  function Replay(log: seq<Rec>): seq<Entry> {
    ReplayFrom([], log)
  }

  /** Where an id stood before a tag was applied; None if the tag created it. */
  function IdBefore(r: Rec, id: nat): Option<nat> {
    if r.tag.typ == TYPE_CREATE && r.tag.id <= id then
      if r.tag.id == id then None else Some(id - 1)
    else if r.tag.typ == TYPE_DELETE && r.tag.id <= id then
      Some(id + 1)
    else
      Some(id)
  }

  /** The entry at an id after one tag, in terms of the entries before it. */
  lemma ApplyAt(dir: seq<Entry>, r: Rec, id: nat)
    requires ValidRec(r)
    ensures At(Apply(dir, r), id) ==
            match IdBefore(r, id)
            case None => []
            case Some(p) => At(dir, p) + if r.tag.IsFileAttr() && r.tag.id == id then [AttrOf(r)] else []
  {
    if r.tag.typ == TYPE_CREATE {
      var p := Pad(dir, r.tag.id);
      PadAt(dir, r.tag.id, id);
      if id > r.tag.id {
        PadAt(dir, r.tag.id, id - 1);
      }
      assert Apply(dir, r) == p[..r.tag.id] + [[]] + p[r.tag.id..];
    } else if r.tag.typ == TYPE_DELETE {
    } else if r.tag.IsFileAttr() {
      PadAt(dir, r.tag.id + 1, id);
    }
  }

  // ---------------------------------------------------------------- lookup

  /** How many leading type bits a query compares: the top three, the top four or all eleven. */
  datatype Mask = Type1 | Type2 | Type3 {
    predicate Same(typ: nat, other: nat) {
      match this
      case Type1 => typ / 0x100 == other / 0x100
      case Type2 => typ / 0x80 == other / 0x80
      case Type3 => typ == other
    }
  }

  function FindLast(e: Entry, mask: Mask, typ: nat): Option<Attr>
  {
    if e == [] then None
    else if mask.Same(e[|e| - 1].typ, typ) then Some(e[|e| - 1])
    else FindLast(e[..|e| - 1], mask, typ)
  }

  /** The newest matching attribute, unless that one records a removal. */
  function Lookup(e: Entry, mask: Mask, typ: nat): Option<Attr>
  {
    match FindLast(e, mask, typ)
    case None => None
    case Some(a) => if a.size == SIZE_REMOVED then None else Some(a)
  }

  /** A lookup finds the last attribute that matches, or nothing if that one is a removal. */
  lemma {:induction false} LookupIs(e: Entry, mask: Mask, typ: nat, k: nat)
    requires k < |e| && mask.Same(e[k].typ, typ)
    requires forall j :: k < j < |e| ==> !mask.Same(e[j].typ, typ)
    ensures Lookup(e, mask, typ) == if e[k].size == 0x3ff then None else Some(e[k])
  {
    if k < |e| - 1 {
      LookupIs(e[..|e| - 1], mask, typ, k);
    }
  }

  /** A mask compares types without their low eight bits, without their low seven, or whole. */
  lemma MaskIs(mask: Mask, a: nat, b: nat)
    ensures mask.Same(a, b) <==>
            match mask
            case Type1 => a - a % 0x100 == b - b % 0x100
            case Type2 => a - a % 0x80 == b - b % 0x80
            case Type3 => a == b
  {
    assert a == a / 0x100 * 0x100 + a % 0x100 && b == b / 0x100 * 0x100 + b % 0x100;
    assert a == a / 0x80 * 0x80 + a % 0x80 && b == b / 0x80 * 0x80 + b % 0x80;
  }

  lemma FindLastSnoc(e: Entry, a: Attr, mask: Mask, typ: nat)
    ensures FindLast(e + [a], mask, typ) == if mask.Same(a.typ, typ) then Some(a) else FindLast(e, mask, typ)
  {
    assert (e + [a])[..|e|] == e;
  }

  /** Setting an attribute is what a lookup of exactly that type finds from then on, until a tag of
      size 0x3ff takes it away; all other types and entries are as before. */
  lemma SettingShows(log: seq<Rec>, r: Rec, id: nat, typ: nat)
    requires ValidRec(r) && r.tag.IsFileAttr()
    ensures Lookup(At(Replay(log + [r]), id), Type3, typ) ==
            if id == r.tag.id && typ == r.tag.typ then (if r.tag.size == 0x3ff then None else Some(AttrOf(r)))
            else Lookup(At(Replay(log), id), Type3, typ)
  {
    assert (log + [r])[..|log + [r]| - 1] == log;
    ApplyAt(Replay(log), r, id);
    var e := At(Replay(log), id);
    assert e + [] == e;
    FindLastSnoc(e, AttrOf(r), Type3, typ);
  }

  // ---------------------------------------------------------------- packed tags

  function Pack(t: Tag): nat {
    t.typ * 0x10_0000 + t.id * 0x400 + t.size
  }

  function Unpack(w: nat): Tag {
    Tag(w / 0x10_0000, w / 0x400 % 0x400, w % 0x400)
  }

  /** Adding a signed number of ids to a packed tag moves the id field and nothing else, as long
      as the id stays inside its ten bits. */
  lemma PackShift(t: Tag, d: int)
    requires t.Fits() && 0 <= t.id + d < 0x400
    ensures Pack(t) + d * 0x400 >= 0
    ensures Unpack(Pack(t) + d * 0x400) == t.(id := t.id + d)
  {
    var w := Pack(t) + d * 0x400;
    assert w == t.typ * 0x10_0000 + (t.id + d) * 0x400 + t.size;
    assert w / 0x400 == t.typ * 0x400 + (t.id + d);
  }

  /** Adds a packed difference of `d` ids to a packed tag, in 32-bit arithmetic. */
  method AddDiff(t: Tag, diff: int, ghost d: int) returns (r: Tag)
    requires t.Fits() && 0 <= t.id + d < 0x400 && diff == d * 0x400
    ensures r == t.(id := t.id + d)
  {
    PackShift(t, d);
    r := Unpack((Pack(t) + diff) % 0x1_0000_0000);
  }

  // ---------------------------------------------------------------- well-formed logs

  predicate SpliceFree(log: seq<Rec>) {
    forall k :: 0 <= k < |log| ==> log[k].tag.Type1() != 4
  }

  /** The logs littlefs writes: a compacted part without splices, then commits whose ids are in
      range, with one id to spare below the reserved 0x3ff. */
  predicate WellFormed(log: seq<Rec>)
    decreases |log|
  {
    && ValidLog(log)
    && |Replay(log)| <= 0x3fd
    && (SpliceFree(log) ||
        var front, r := log[..|log| - 1], log[|log| - 1];
        && WellFormed(front)
        && (r.tag.typ == TYPE_CREATE ==> r.tag.id <= |Replay(front)|)
        && (r.tag.typ == TYPE_DELETE || r.tag.IsFileAttr() ==> r.tag.id < |Replay(front)|))
  }

  /** The invariant that keeps a walked-back id inside its field. */
  predicate IdFits(log: seq<Rec>, id: nat) {
    id <= |Replay(log)| + 1 || (SpliceFree(log) && id <= 0x3fe)
  }

  lemma ApplyLength(dir: seq<Entry>, r: Rec)
    requires ValidRec(r)
    requires r.tag.typ == TYPE_CREATE ==> r.tag.id <= |dir|
    requires r.tag.typ == TYPE_DELETE || r.tag.IsFileAttr() ==> r.tag.id < |dir|
    ensures |Apply(dir, r)| == |dir| + if r.tag.Type1() == 4 then r.tag.Splice() else 0
  {
  }

  lemma ReplayLengthMonotone(log: seq<Rec>)
    requires SpliceFree(log) && ValidLog(log) && |log| > 0
    ensures |Replay(log[..|log| - 1])| <= |Replay(log)|
  {
  }

  lemma IdFitsBack(log: seq<Rec>, id: nat)
    requires WellFormed(log) && |log| > 0 && IdFits(log, id)
    ensures WellFormed(log[..|log| - 1])
    ensures var p := IdBefore(log[|log| - 1], id);
            p.Some? ==> IdFits(log[..|log| - 1], p.value)
  {
    var front, r := log[..|log| - 1], log[|log| - 1];
    assert ValidRec(r);
    if SpliceFree(log) {
      assert log[|log| - 1].tag.Type1() != 4;
      assert SpliceFree(front);
      ReplayLengthMonotone(log);
    } else {
      ApplyLength(Replay(front), r);
    }
  }

  /** Every id the backward walk passes through stays below the reserved id. */
  predicate WalkFits(log: seq<Rec>, id: nat)
    decreases |log|
  {
    && id < ID_NONE
    && (log == [] ||
        match IdBefore(log[|log| - 1], id)
        case None => true
        case Some(p) => WalkFits(log[..|log| - 1], p))
  }

  lemma {:induction false} WellFormedWalkFits(log: seq<Rec>, id: nat)
    requires WellFormed(log) && IdFits(log, id)
    ensures WalkFits(log, id)
    decreases |log|
  {
    if |log| > 0 {
      IdFitsBack(log, id);
      match IdBefore(log[|log| - 1], id) {
        case None =>
        case Some(p) => WellFormedWalkFits(log[..|log| - 1], p);
      }
    }
  }

  // ---------------------------------------------------------------- backward lookup

  /** The entry that lfs_dir_getslice looks at for an id while a move of id `m` out of this very
      directory is recorded in the global state: id `m` itself answers "no entry", larger ids
      are read one further up, smaller ones as they are. */
  function Synthetic(move: Option<nat>, id: nat): Option<nat> {
    match move
    case None => Some(id)
    case Some(m) => if m == id then None else if m < id then Some(id + 1) else Some(id)
  }

  /** The newest matching attribute, found by walking the log backwards. */
  function WalkBack(log: seq<Rec>, id: nat, mask: Mask, typ: nat): Option<Attr>
    decreases |log|
  {
    if log == [] then None else
    var r := log[|log| - 1];
    match IdBefore(r, id)
    case None => None
    case Some(p) =>
      if r.tag.IsFileAttr() && r.tag.id == id && mask.Same(r.tag.typ, typ) then Some(AttrOf(r))
      else WalkBack(log[..|log| - 1], p, mask, typ)
  }

  /** Walking back finds what replaying forwards stores, for every log and every id. */
  lemma {:induction false} WalkBackIsReplay(log: seq<Rec>, id: nat, mask: Mask, typ: nat)
    requires ValidLog(log)
    ensures WalkBack(log, id, mask, typ) == FindLast(At(Replay(log), id), mask, typ)
    decreases |log|
  {
    if |log| > 0 {
      var front, r := log[..|log| - 1], log[|log| - 1];
      assert ValidRec(r);
      ApplyAt(Replay(front), r, id);
      match IdBefore(r, id) {
        case None =>
        case Some(p) =>
          var e := At(Replay(front), p);
          assert e + [] == e;
          FindLastSnoc(e, AttrOf(r), mask, typ);
          WalkBackIsReplay(front, p, mask, typ);
      }
    }
  }

  /** The answer lfs_dir_getslice builds from the attribute it stops at. */
  function Answer(hit: Option<Attr>, id: nat): Option<(Tag, seq<bv8>)> {
    match hit
    case None => None
    case Some(a) => if a.size == SIZE_REMOVED then None else Some((Tag(a.typ, id, a.size), a.data))
  }

  lemma WalkEnds(log: seq<Rec>, id: nat, mask: Mask, typ: nat)
    requires WalkFits(log, id)
    ensures id < ID_NONE && (log == [] ==> WalkBack(log, id, mask, typ) == None)
  {
  }

  lemma WalkStep(log: seq<Rec>, id: nat, mask: Mask, typ: nat)
    requires log != [] && WalkFits(log, id)
    ensures var front, r := log[..|log| - 1], log[|log| - 1];
            match IdBefore(r, id)
            case None => WalkBack(log, id, mask, typ) == None
            case Some(p) =>
              && p < ID_NONE && WalkFits(front, p)
              && WalkBack(log, id, mask, typ) ==
                 if r.tag.IsFileAttr() && r.tag.id == id && mask.Same(r.tag.typ, typ) then Some(AttrOf(r))
                     else WalkBack(front, p, mask, typ)
  {
  }

  /** The loop of lfs_dir_getslice: walks the log from its end, keeping `gdiff`, the difference
      between the id asked for and the id it had at the tag being read, in packed form. */
  method ScanBack(log: seq<Rec>, mask: Mask, gtag: Tag, gdiff0: int, ghost start: nat)
    returns (found: Option<(Tag, seq<bv8>)>)
    requires ValidLog(log) && gtag.IsFileAttr() && gtag.Fits()
    requires gdiff0 == (gtag.id - start) * 0x400 && WalkFits(log, start)
    ensures found == Answer(WalkBack(log, start, mask, gtag.typ), gtag.id)
  {
    hide WalkBack, WalkFits;
    var gdiff := gdiff0;
    ghost var id: nat := start;
    ghost var prefix := log;
    WalkEnds(log, start, mask, gtag.typ);
    var k := |log|;
    while k > 0
      invariant 0 <= k <= |log| && prefix == log[..k]
      invariant gdiff == (gtag.id - id) * 0x400
      invariant WalkFits(prefix, id) && id < ID_NONE
      invariant WalkBack(prefix, id, mask, gtag.typ) == WalkBack(log, start, mask, gtag.typ)
    {
      k := k - 1;
      var r := log[k];
      assert ValidRec(r) && r == prefix[k];
      WalkStep(prefix, id, mask, gtag.typ);
      prefix := prefix[..k];
      var want := AddDiff(gtag, -gdiff, id - gtag.id);
      if r.tag.Type1() == 4 && r.tag.id <= want.id {
        if r.tag == Tag(TYPE_CREATE, want.id, 0) {
          // the id did not exist before this tag
          return None;
        }
        // older tags know the entry under another id
        id := IdBefore(r, id).value;
        gdiff := gdiff + r.tag.Splice() * 0x400;
        want := AddDiff(gtag, -gdiff, id - gtag.id);
      }
      if mask.Same(r.tag.typ, want.typ) && r.tag.id == want.id {
        if r.tag.IsRemoved() {
          return None;
        }
        var tag := AddDiff(r.tag, gdiff, gtag.id - id);
        return Some((tag, r.data));
      }
    }
    WalkEnds(prefix, id, mask, gtag.typ);
    return None;
  }

  /** lfs_dir_getslice at offset 0 (lfs_dir_get). `move` is the id of the pending move when the
      global state names this pair. */
  method GetSlice(log: seq<Rec>, move: Option<nat>, mask: Mask, gtag: Tag)
    returns (found: Option<(Tag, seq<bv8>)>)
    requires WellFormed(log) && gtag.IsFileAttr() && gtag.Fits()
    requires IdFits(log, gtag.id) && IdFits(log, gtag.id + 1)
    ensures found ==
            match Synthetic(move, gtag.id)
            case None => None
            case Some(p) =>
              match Lookup(At(Replay(log), p), mask, gtag.typ)
              case None => None
              case Some(a) => Some((Tag(a.typ, gtag.id, a.size), a.data))
  {
    var gdiff := 0;
    if move.Some? {
      if move.value == gtag.id {
        return None;
      } else if move.value < gtag.id {
        gdiff := gdiff - 0x400;
      }
    }
    ghost var id: nat := Synthetic(move, gtag.id).value;
    WalkBackIsReplay(log, id, mask, gtag.typ);
    WellFormedWalkFits(log, id);
    found := ScanBack(log, mask, gtag, gdiff, id);
  }
}
