/** One metadata pair under power loss.

    A directory lives in two blocks. A commit either appends to the newer block or, when that
    block is full or may not be clean, rewrites the directory into the other block with the next
    revision number. Commits end in a CRC. This module runs both ways of committing one device
    operation at a time, lets the power fail at any of them, and proves that a later fetch finds
    the old directory or the new one, never anything else.

    The CRC is taken as ideal: a CRC cell records what it was computed over. */
module MetadataPair {
  import opened Basics
  import opened MetaLog
  import opened Compaction
  import opened Directory

  // ---------------------------------------------------------------- revisions

  /** lfs_scmp: the signed distance of two revisions, ignoring overflow. */
  function Scmp(a: nat, b: nat): int {
    var d := (a - b) % WORD;
    if d < 0x8000_0000 then d else d - WORD
  }

  function NextRev(rev: nat): nat {
    (rev + 1) % WORD
  }

  lemma NextRevIsNewer(rev: nat)
    requires rev < WORD
    ensures Scmp(NextRev(rev), rev) == 1 && Scmp(rev, NextRev(rev)) == -1
  {
  }

  lemma ScmpAsymmetric(a: nat, b: nat)
    requires Scmp(a, b) > 0
    ensures Scmp(b, a) < 0
  {
  }

  /** lfs_alignup in 32-bit arithmetic. */
  function AlignUp32(a: nat, m: nat): nat
    requires m > 0
  {
    var t := (a + m - 1) % WORD;
    t - t % m
  }

  /** Aligning up gives the least multiple that is not below, unless that overflows; then the result
      wraps to a smaller multiple. */
  lemma AlignUpIs(a: nat, m: nat)
    requires 0 < m && a < WORD
    ensures exists k: nat :: AlignUp32(a, m) == m * k
    ensures a + m - 1 < WORD ==> a <= AlignUp32(a, m) < a + m
    ensures a + m - 1 >= WORD && m <= WORD ==> AlignUp32(a, m) <= a + m - 1 - WORD
  {
    var t := (a + m - 1) % WORD;
    assert t == m * (t / m) + t % m;
    assert AlignUp32(a, m) == m * (t / m);
  }

  /** A new pair takes its first revision from whatever its first block happens to hold, aligned
      up to the wear-levelling modulus. Even when that overflows, the first compaction is newer
      than the old content. */
  lemma AllocatedRevIsNewer(stale: nat, m: nat)
    requires stale < WORD && 0 < m < 0x8000_0000
    ensures 1 <= Scmp(NextRev(AlignUp32(stale, m)), stale) <= m
  {
    var t := (stale + m - 1) % WORD;
    AlignStep(stale, m, t % m);
  }

  lemma AlignStep(stale: nat, m: nat, rest: nat)
    requires stale < WORD && 0 < m < 0x8000_0000 && rest < m && rest <= (stale + m - 1) % WORD
    ensures Scmp(NextRev((stale + m - 1) % WORD - rest), stale) == m - rest
  {
    var t := (stale + m - 1) % WORD;
    assert t == stale + m - 1 || t == stale + m - 1 - WORD;
  }

  // ---------------------------------------------------------------- blocks

  /** What one device operation leaves in a block: a tag, a CRC over what it closes (the first
      one also covers the revision), or a partly programmed cell. */
  datatype Cell = TagCell(rec: Rec) | CrcCell(rev: Option<nat>, sum: seq<Rec>) | Torn

  /** The first word of a block, and the cells programmed since it was erased. */
  datatype Block = Block(rev: nat, cells: seq<Cell>)

  /** A scan: what the CRC covers so far, and the log of the valid commits found. */
  datatype Scan = Scan(rev: Option<nat>, sum: seq<Rec>, best: Option<seq<Rec>>, stopped: bool)

  function ScanCell(s: Scan, c: Cell): Scan {
    if s.stopped then s else
    match c
    case Torn => s.(stopped := true)
    case TagCell(r) => s.(sum := s.sum + [r])
    case CrcCell(rev, sum) =>
      if rev == s.rev && sum == s.sum then
        Scan(None, [], Some((if s.best.Some? then s.best.value else []) + sum + [CLOSE]), false)
      else
        s.(stopped := true)
  }

  function ScanCells(rev: nat, cells: seq<Cell>): Scan {
    if cells == [] then Scan(Some(rev), [], None, false)
    else ScanCell(ScanCells(rev, cells[..|cells| - 1]), cells[|cells| - 1])
  }

  function ScanBlock(b: Block): Scan {
    ScanCells(b.rev, b.cells)
  }

  /** The log a block holds, if any commit in it is valid. */
  function Committed(b: Block): Option<seq<Rec>> {
    ScanBlock(b).best
  }

  /** Nothing was programmed after the last valid commit. */
  predicate Clean(s: Scan) {
    !s.stopped && s.rev == None && s.sum == [] && s.best.Some?
  }

  lemma ScanSnoc(rev: nat, cells: seq<Cell>, c: Cell)
    ensures ScanCells(rev, cells + [c]) == ScanCell(ScanCells(rev, cells), c)
  {
    assert (cells + [c])[..|cells + [c]| - 1] == cells;
  }

  lemma ProgScan(b: Block, c: Cell)
    ensures ScanBlock(Block(b.rev, b.cells + [c])) == ScanCell(ScanBlock(b), c)
  {
    ScanSnoc(b.rev, b.cells, c);
  }

  // ---------------------------------------------------------------- fetching

  /** The choice lfs_dir_fetchmatch makes: the block with the newer revision, or the other one if
      that holds no valid commit; None if neither does. */
  function Fetched(b0: Block, b1: Block): Option<(nat, seq<Rec>)> {
    var r := if Scmp(b1.rev, b0.rev) > 0 then 1 else 0;
    var first, second := if r == 1 then b1 else b0, if r == 1 then b0 else b1;
    if Committed(first).Some? then Some((r, Committed(first).value))
    else if Committed(second).Some? then Some((1 - r, Committed(second).value))
    else None
  }

  /** The invariant of a pair: one block holds the directory; the other holds no valid commit or
      an older one. */
  predicate Holds(blocks: seq<Block>, active: nat, log: seq<Rec>) {
    && |blocks| == 2 && active < 2
    && (forall i :: 0 <= i < 2 ==> blocks[i].rev < WORD)
    && Committed(blocks[active]) == Some(log)
    && (Committed(blocks[1 - active]).Some? ==> Scmp(blocks[active].rev, blocks[1 - active].rev) > 0)
  }

  lemma FetchFinds(blocks: seq<Block>, active: nat, log: seq<Rec>)
    requires Holds(blocks, active, log)
    ensures Fetched(blocks[0], blocks[1]) == Some((active, log))
  {
    if Scmp(blocks[active].rev, blocks[1 - active].rev) > 0 {
      ScmpAsymmetric(blocks[active].rev, blocks[1 - active].rev);
    }
  }

  /** What the directory will be after a commit, however the commit is made. */
  predicate IsNext(log: seq<Rec>, attrs: seq<Mattr>, next: seq<Rec>) {
    next == CommitLog(log, attrs, false) || next == CommitLog(log, attrs, true)
  }

  /** Readers cannot tell which way a commit was made. */
  lemma NextReads(log: seq<Rec>, attrs: seq<Mattr>, next: seq<Rec>)
    requires GoodCommit(log, attrs) && IsNext(log, attrs, next)
    ensures GoodDir(next) && Listing(next) == Listing(log + Expand(attrs))
  {
    hide GoodDir, Listing, GoodCommit, Replay, Expand;
    CommitGood(log, attrs, next != CommitLog(log, attrs, false));
  }

  /** A commit is appended to a clean block that has room for it, as long as there are few entries. */
  predicate Appends(log: seq<Rec>, attrs: seq<Mattr>, erased: bool, room: nat) {
    erased && |Replay(log + Expand(attrs))| < 0xff && |Expand(attrs)| <= room
  }

  /** An upper bound on the device operations of a commit. */
  function Cost(log: seq<Rec>, attrs: seq<Mattr>): nat {
    |Expand(attrs)| + |Compacted(log, attrs, 0, |Replay(log + Expand(attrs))|)| + 4
  }

  function TagCells(recs: seq<Rec>): (r: seq<Cell>)
    ensures |r| == |recs|
  {
    seq(|recs|, i requires 0 <= i < |recs| => TagCell(recs[i]))
  }

  lemma {:induction false} TagsScan(rev: nat, recs: seq<Rec>)
    ensures ScanCells(rev, TagCells(recs)) == Scan(Some(rev), recs, None, false)
    decreases |recs|
  {
    if recs != [] {
      var front := recs[..|recs| - 1];
      TagsScan(rev, front);
      assert TagCells(recs) == TagCells(front) + [TagCell(recs[|recs| - 1])];
      ScanSnoc(rev, TagCells(front), TagCell(recs[|recs| - 1]));
    }
  }

  class Pair {
    var blocks: seq<Block>    // the disk
    var power: nat            // device operations left before the power fails
    // what is kept in RAM
    var active: nat           // which block is pair[0]
    var rev: nat
    var log: seq<Rec>
    var erased: bool

    /** The RAM copy agrees with the disk. */
    ghost predicate Valid()
      reads this
    {
      && Holds(blocks, active, log)
      && rev == blocks[active].rev
      && (erased ==> Clean(ScanBlock(blocks[active])))
    }

    /** A new pair and its first compaction, over whatever its blocks hold: the first block is only
        looked at for its revision, the other one is written. `modulus` is 1 without wear
        levelling. */
    constructor (stale: Block, modulus: nat, recs: seq<Rec>, operations: nat)
      requires stale.rev < WORD && 0 < modulus < 0x8000_0000
      ensures Valid() && log == recs + [CLOSE] && power == operations
    {
      var first := NextRev(AlignUp32(stale.rev, modulus));
      var written := Block(first, TagCells(recs) + [CrcCell(Some(first), recs)]);
      blocks := [stale, written];
      active, rev, log, erased, power := 1, first, recs + [CLOSE], false, operations;
      new;
      AllocatedRevIsNewer(stale.rev, modulus);
      ProgScan(Block(first, TagCells(recs)), CrcCell(Some(first), recs));
      TagsScan(first, recs);
      assert [] + recs + [CLOSE] == recs + [CLOSE];
    }

    // -------------------------------------------------------------- device

    /** Programs one cell. When the power fails during the operation, the cell may be torn. */
    method Prog(i: nat, c: Cell, torn: bool) returns (ok: bool)
      requires i < |blocks|
      modifies this`blocks, this`power
      ensures ok == (old(power) > 1)
      ensures power == if old(power) > 0 then old(power) - 1 else 0
      ensures |blocks| == old(|blocks|) && blocks == old(blocks)[i := Block(old(blocks[i].rev), blocks[i].cells)]
      ensures blocks[i].cells == old(blocks[i].cells) +
                (if ok then [c] else if old(power) == 1 && torn then [Torn] else [])
    {
      ok := power > 1;
      var b := blocks[i];
      if ok {
        blocks := blocks[i := b.(cells := b.cells + [c])];
      } else if power == 1 && torn {
        blocks := blocks[i := b.(cells := b.cells + [Torn])];
      }
      power := if power > 0 then power - 1 else 0;
    }

    /** Erases a block. Its first word is then arbitrary (`junk`), also when the power fails. */
    method Erase(i: nat, junk: nat) returns (ok: bool)
      requires i < |blocks| && junk < WORD
      modifies this`blocks, this`power
      ensures ok == (old(power) > 1)
      ensures power == if old(power) > 0 then old(power) - 1 else 0
      ensures blocks == if old(power) > 0 then old(blocks)[i := Block(junk, [])] else old(blocks)
    {
      ok := power > 1;
      if power > 0 {
        blocks := blocks[i := Block(junk, [])];
        power := power - 1;
      }
    }

    /** Programs the revision of an erased block. */
    method ProgRev(i: nat, newrev: nat) returns (ok: bool)
      requires i < |blocks|
      modifies this`blocks, this`power
      ensures ok == (old(power) > 1)
      ensures power == if old(power) > 0 then old(power) - 1 else 0
      ensures blocks == if ok then old(blocks)[i := Block(newrev, old(blocks[i].cells))] else old(blocks)
    {
      ok := power > 1;
      if ok {
        blocks := blocks[i := blocks[i].(rev := newrev)];
      }
      power := if power > 0 then power - 1 else 0;
    }

    /** Programs the tags of a commit, one by one, as far as `room` and the power allow. */
    method ProgTags(i: nat, recs: seq<Rec>, room: nat, torn: bool) returns (ok: bool)
      requires i < |blocks|
      modifies this`blocks, this`power
      ensures |blocks| == old(|blocks|) && blocks == old(blocks)[i := Block(old(blocks[i].rev), blocks[i].cells)]
      ensures Committed(blocks[i]) == old(Committed(blocks[i]))
      ensures ok ==> |recs| <= room
      ensures ok && !old(ScanBlock(blocks[i])).stopped ==>
                var s := old(ScanBlock(blocks[i])); ScanBlock(blocks[i]) == s.(sum := s.sum + recs)
      ensures !ok && |recs| <= room ==> power == 0
      ensures power + |recs| >= old(power)
    {
      hide ScanCells, ScanBlock;
      var k := 0;
      while k < |recs|
        invariant 0 <= k <= |recs| && k <= room
        invariant |blocks| == old(|blocks|) && blocks == old(blocks)[i := Block(old(blocks[i].rev), blocks[i].cells)]
        invariant Committed(blocks[i]) == old(Committed(blocks[i]))
        invariant power + k >= old(power)
        invariant ScanBlock(blocks[i]) == var s := old(ScanBlock(blocks[i])); if s.stopped then s
                else s.(sum := s.sum + recs[..k])
      {
        if k == room {
          // does not fit; what was programmed so far stays behind
          return false;
        }
        ghost var b := blocks[i];
        ok := Prog(i, TagCell(recs[k]), torn);
        ProgScan(b, TagCell(recs[k]));
        ProgScan(b, Torn);
        assert b.cells + [] == b.cells;
        if !ok {
          return;
        }
        assert recs[..k + 1] == recs[..k] + [recs[k]];
        k := k + 1;
      }
      assert recs[..k] == recs;
      ok := true;
    }

    // -------------------------------------------------------------- commits

    /** lfs_dir_fetchmatch: rebuilds the RAM copy from the disk. */
    method Fetch() returns (found: bool)
      requires |blocks| == 2
      modifies this`active, this`rev, this`log, this`erased
      ensures found <==> Fetched(blocks[0], blocks[1]).Some?
      ensures found ==> active < 2 && Some((active, log)) == Fetched(blocks[0], blocks[1]) && rev == blocks[active].rev
      ensures found ==> (erased <==> Clean(ScanBlock(blocks[active])))
    {
      // the newer of the two, by sequence comparison
      var r := 0;
      for i := 0 to 2
        invariant r == if i == 2 && Scmp(blocks[1].rev, blocks[0].rev) > 0 then 1 else 0
      {
        // when the first block is looked at, the second revision still reads as zero
        var other := if i == 0 then 0 else blocks[0].rev;
        if Scmp(blocks[i].rev, other) > 0 {
          r := i;
        }
      }
      // scan it, and fall back to the other one if it holds no valid commit
      for i := 0 to 2
        invariant i == 1 ==> Committed(blocks[r]) == None
        invariant i == 2 ==> Committed(blocks[r]) == None && Committed(blocks[1 - r]) == None
      {
        active := if i == 0 then r else 1 - r;
        rev := blocks[active].rev;
        var s := ScanLoop(blocks[active]);
        if s.best.Some? {
          log := s.best.value;
          erased := Clean(s);
          return true;
        }
      }
      found := false;
    }

    /** The scan of one block, tag by tag. */
    method ScanLoop(b: Block) returns (s: Scan)
      ensures s == ScanBlock(b)
    {
      s := Scan(Some(b.rev), [], None, false);
      var k := 0;
      assert b.cells[..0] == [];
      while k < |b.cells| && !s.stopped
        invariant 0 <= k <= |b.cells|
        invariant s == ScanCells(b.rev, b.cells[..k])
      {
        ScanSnoc(b.rev, b.cells[..k], b.cells[k]);
        assert b.cells[..k + 1] == b.cells[..k] + [b.cells[k]];
        s := ScanCell(s, b.cells[k]);
        k := k + 1;
      }
      StoppedStays(b.rev, b.cells, k);
      assert b.cells[..|b.cells|] == b.cells;
    }

    /** Tags and CRC of one commit. The commit counts from the moment its CRC is complete. */
    method ProgCommit(i: nat, recs: seq<Rec>, room: nat, torn: bool, ghost base: seq<Rec>) returns (ok: bool)
      requires i < |blocks|
      requires var s := ScanBlock(blocks[i]);
               !s.stopped && s.sum == [] && base == if s.best.Some? then s.best.value else []
      modifies this`blocks, this`power
      ensures |blocks| == old(|blocks|) && blocks == old(blocks)[i := Block(old(blocks[i].rev), blocks[i].cells)]
      ensures ok ==> |recs| <= room && ScanBlock(blocks[i]) == Scan(None, [], Some(base + recs + [CLOSE]), false)
      ensures !ok ==> Committed(blocks[i]) == old(Committed(blocks[i]))
      ensures !ok && |recs| <= room ==> power == 0
      ensures power + |recs| + 1 >= old(power)
    {
      ghost var s := ScanBlock(blocks[i]);
      var seed := ScanBlock(blocks[i]).rev;
      ok := ProgTags(i, recs, room, torn);
      if ok {
        ghost var b := blocks[i];
        var crc := CrcCell(seed, recs);
        assert [] + recs == recs;
        assert ScanBlock(b) == Scan(seed, recs, s.best, false);
        ok := Prog(i, crc, torn);
        ScanSnoc(b.rev, b.cells, crc);
        ScanSnoc(b.rev, b.cells, Torn);
        assert b.cells + [] == b.cells;
      }
    }

    /** lfs_dir_relocatingcommit, the appending half: tags and CRC go behind the last commit. */
    method Append(recs: seq<Rec>, room: nat, torn: bool) returns (done: bool)
      requires Valid() && erased
      modifies this`blocks, this`power, this`log
      ensures done ==> |recs| <= room && Valid() && log == old(log) + recs + [CLOSE]
      ensures !done ==> Holds(blocks, active, log) && log == old(log) && rev == blocks[active].rev
      ensures !done && |recs| <= room ==> power == 0
      ensures power + |recs| + 1 >= old(power)
    {
      done := ProgCommit(active, recs, room, torn, log);
      if done {
        log := log + recs + [CLOSE];
      }
    }

    /** Erases the older block and gives it the next revision. */
    method Prepare(i: nat, next: nat, junk: nat) returns (ok: bool)
      requires i < |blocks| && junk < WORD && next < WORD
      modifies this`blocks, this`power
      ensures |blocks| == old(|blocks|) && blocks == old(blocks)[i := blocks[i]]
      ensures blocks[i] == old(blocks[i]) || (blocks[i].rev < WORD && Committed(blocks[i]) == None)
      ensures ok ==> blocks[i].rev == next && ScanBlock(blocks[i]) == Scan(Some(next), [], None, false)
      ensures !ok ==> power == 0
      ensures power + 2 >= old(power)
    {
      ok := Erase(i, junk);
      if ok {
        ok := ProgRev(i, next);
      }
    }

    /** lfs_dir_compact: the whole directory is rewritten into the other block, which takes over
        the moment its CRC is complete. */
    method Compact(recs: seq<Rec>, junk: nat, torn: bool) returns (done: bool)
      requires Holds(blocks, active, log) && rev == blocks[active].rev && junk < WORD
      modifies this
      ensures done ==> Valid() && log == recs + [CLOSE] && active == 1 - old(active) && erased == old(erased)
      ensures !done ==> power == 0 && Holds(blocks, active, log) && log == old(log) && active == old(active)
      ensures power + |recs| + 3 >= old(power)
    {
      var other, next := 1 - active, NextRev(rev);
      NextRevIsNewer(rev);
      done := Prepare(other, next, junk);
      if done {
        done := ProgCommit(other, recs, |recs|, torn, []);
        if done {
          assert [] + recs == recs;
          active, rev, log := other, next, recs + [CLOSE];
        }
      }
    }

    /** A commit: appended if the block is known to be clean and has room for it, and the directory
        is not full; else compacted. */
    method Commit(attrs: seq<Mattr>, room: nat, junk: nat, torn: bool) returns (done: bool)
      requires Valid() && junk < WORD
      modifies this
      ensures done ==> Valid() && log == CommitLog(old(log), attrs, !Appends(old(log), attrs, old(erased), room))
      ensures !done ==> power == 0 && Holds(blocks, active, old(log))
      ensures power + Cost(old(log), attrs) >= old(power)
    {
      if erased && |Replay(log + Expand(attrs))| < 0xff {
        done := Append(Expand(attrs), room, torn);
        if done || power == 0 {
          return;
        }
      }
      done := Compact(Compacted(log, attrs, 0, |Replay(log + Expand(attrs))|), junk, torn);
    }

    /** A commit during which the power may fail at any device operation, and the fetch when it
        is back: the directory is the old one or, if the commit got to its end, the new one. */
    method CommitAndFetch(attrs: seq<Mattr>, room: nat, junk: nat, torn: bool) returns (done: bool)
      requires Valid() && junk < WORD
      modifies this
      ensures Valid()
      ensures done ==> IsNext(old(log), attrs, log)
      ensures log == if done then CommitLog(old(log), attrs, !Appends(old(log), attrs, old(erased), room)) else old(log)
      ensures old(power) > Cost(old(log), attrs) ==> done
      ensures if done then power + Cost(old(log), attrs) >= old(power) else power == 0
    {
      done := Commit(attrs, room, junk, torn);
      FetchFinds(blocks, active, if done then log else old(log));
      var found := Fetch();
    }
  }

  lemma {:induction false} StoppedStays(rev: nat, cells: seq<Cell>, k: nat)
    requires k <= |cells| && (k < |cells| ==> ScanCells(rev, cells[..k]).stopped)
    ensures ScanCells(rev, cells) == ScanCells(rev, cells[..k])
    decreases |cells|
  {
    if k < |cells| {
      var front := cells[..|cells| - 1];
      assert front[..k] == cells[..k];
      StoppedStays(rev, front, k);
    } else {
      assert cells[..k] == cells;
    }
  }
}
