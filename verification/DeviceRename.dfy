/** A rename between two metadata pairs, device operation by device operation.

    Each of the two commits of a rename is many device operations on one pair of blocks. The module
    puts the pairs of blocks and the filesystem's list of pairs together, and proves that the power
    may fail at any of these operations: fetching both pairs then finds the old directories or the
    renamed ones, with a pending move that recovery can carry out. */
module DeviceRename {
  import opened MetaLog
  import opened Compaction
  import opened Directory
  import opened GState
  import opened F = Filesystem
  import P = MetadataPair
  import opened Basics

  /** The list after the i-th pair was rewritten as a whole, with what is pending of the global
      state. */
  function Rewrite(dirs: seq<Mdir>, i: nat, log: seq<Rec>, gstate: GState, gdisk: GState): seq<Mdir>
    requires i < |dirs|
  {
    dirs[i := dirs[i].(log := log, delta := Xor(Pending(gstate, gdisk, ZERO), dirs[i].delta))]
  }

  /** One commit that neither splits nor drops, seen on the list of pairs. */
  lemma RewriteShows(dirs: seq<Mdir>, i: nat, attrs: seq<Mattr>, log: seq<Rec>, gstate: GState, gdisk: GState)
    requires i < |dirs| && GoodDirs(dirs) && GoodCommit(dirs[i].log, attrs) && P.IsNext(dirs[i].log, attrs, log)
    requires !Drops(dirs, i, attrs) && MoveAway(dirs, i, gstate) && Conserved(dirs, gdisk, ZERO)
    ensures var after := Rewrite(dirs, i, log, gstate, gdisk);
            && GoodDirs(after) && Conserved(after, gstate, ZERO) && Committed(dirs, after, i, attrs)
            && DiskView(after) == Directories(View(dirs, gstate)[i := Listing(dirs[i].log + Expand(attrs))], dirs)
  {
    hide GoodDir, GoodCommit, Listing, Expand, Conserved, Pending, Xor, Sum, Deltas, MoveAway, DiskView, Directories,
         View, Drops, P.IsNext;
    var list, after := Listing(dirs[i].log + Expand(attrs)), Rewrite(dirs, i, log, gstate, gdisk);
    P.NextReads(dirs[i].log, attrs, log);
    OnePart(dirs, i, after[i], list);
    WroteParts(dirs, i, [after[i]], list);
    OneSum(after[i]);
    CommitSettles(dirs, i, [after[i]], gstate, gdisk, ZERO);
    CommitShows(dirs, after, i, attrs, gstate);
  }

  lemma OnePart(dirs: seq<Mdir>, i: nat, d: Mdir, list: seq<EntryView>)
    requires i < |dirs| && GoodDirs(dirs) && d.pair == dirs[i].pair && d.split == dirs[i].split
    requires GoodDir(d.log) && Listing(d.log) == list
    ensures Rewritten(dirs[i], list, [d]) && Put(dirs, i, [d]) == dirs[i := d] && Distinct(dirs[i := d])
  {
    hide GoodDir, Listing;
    var own := Pieces(Listings([d]), [d]);
    assert own == [Piece(list, d.split)] && own[1..] == [];
    assert Together(own) == list + Together([]);
  }

  /** The second commit is made to the pair itself. */
  predicate Stays(dirs: seq<Mdir>, i: nat)
    requires i < |dirs|
  {
    |Listing(dirs[i].log)| > 1 || i == 0 || !dirs[i - 1].split
  }

  lemma StaysNotDropped(dirs: seq<Mdir>, i: nat, id: nat)
    requires i < |dirs| && Stays(dirs, i) && GoodDir(dirs[i].log) && id < |Listing(dirs[i].log)|
    ensures !Drops(dirs, i, [Delete(id)])
  {
    DeleteGood(dirs[i].log, id);
  }

  lemma StaysLater(dirs: seq<Mdir>, after: seq<Mdir>, j: nat, i: nat)
    requires i < |dirs| && j < |dirs| && i != j && Stays(dirs, i) && |after| == |dirs|
    requires after[i] == dirs[i] && (i > 0 ==> after[i - 1].split == dirs[i - 1].split)
    ensures Stays(after, i)
  {
  }

  lemma NotMovingSum(dirs: seq<Mdir>, g: GState)
    requires Conserved(dirs, g, ZERO) && !HasMove(g)
    ensures !HasMove(Sum(Deltas(dirs)))
  {
    hide Sum, Deltas, Xor, Masked;
    XorLaws(Sum(Deltas(dirs)), ZERO, ZERO);
    HasMoveMasked(Sum(Deltas(dirs)), g);
  }

  /** The state of the rename between its commits. */
  function Moving(dirs: seq<Mdir>, r: Rename, g: GState): GState
    requires r.src < |dirs|
  {
    PrepMove(g, Some((r.id10, dirs[r.src].pair)))
  }

  /** The first commit, once it is on the device. */
  lemma FirstDone(dirs: seq<Mdir>, g: GState, gdisk: GState, r: Rename, log: seq<Rec>)
    requires GoodDirs(dirs) && Conserved(dirs, gdisk, ZERO) && !HasMove(g)
    requires r.Valid(Listings(dirs)) && !r.Samepair() && Stays(dirs, r.src)
    requires P.IsNext(dirs[r.dst].log, RenameAttrsFor(dirs, r), log)
    ensures var moving := Moving(dirs, r, g);
            var after := Rewrite(dirs, r.dst, log, moving, gdisk);
            && GoodDirs(after) && Conserved(after, moving, ZERO) && DiskView(after) == RenamedDirs(dirs, r)
            && MoveOk(after, Sum(Deltas(after))) && after[r.src] == dirs[r.src] && Stays(after, r.src)
            && HasMove(moving) && Pair(moving.pair0, moving.pair1) == after[r.src].pair && moving.id == r.id10
  {
    hide GoodDirs, GoodCommit, Conserved, Listing, Expand, Sum, Deltas, Xor, Pending, HasMove, PrepMove, MoveAway,
         MoveOk, DiskView, Directories, View, RenamedView, RenameAttrs, Drops, P.IsNext, Stays, Committed;
    var pair, attrs, moving := dirs[r.src].pair, RenameAttrsFor(dirs, r), Moving(dirs, r, g);
    PrepMoveReads(g, Some((r.id10, pair)));
    FirstCommitShows(dirs, r, g);
    MoveIsOk(dirs, r.src, r.id10, moving);
    RewriteShows(dirs, r.dst, attrs, log, moving, gdisk);
    var after := Rewrite(dirs, r.dst, log, moving, gdisk);
    MoveStaysOk(dirs, after, r.dst, attrs, moving);
    SumMoveOk(after, moving);
    StaysLater(dirs, after, r.dst, r.src);
  }

  /** The second commit, once it is on the device. */
  lemma SecondDone(dirs: seq<Mdir>, i: nat, moving: GState, log: seq<Rec>)
    requires i < |dirs| && GoodDirs(dirs) && Conserved(dirs, moving, ZERO) && Stays(dirs, i)
    requires HasMove(moving) && Pair(moving.pair0, moving.pair1) == dirs[i].pair
            && moving.id as nat < |Listing(dirs[i].log)|
    requires P.IsNext(dirs[i].log, [Delete(moving.id as nat)], log)
    ensures var after := Rewrite(dirs, i, log, PrepMove(moving, None), moving);
            && GoodDirs(after) && DiskView(after) == DiskView(dirs)
            && MoveOk(after, Sum(Deltas(after))) && !HasMove(Sum(Deltas(after)))
  {
    hide Distinct, GoodDir, GoodCommit, Conserved, Listing, Expand, Sum, Deltas, Xor, Pending, HasMove, PrepMove,
         MoveAway, MoveOk, DiskView, Directories, View, Drops, Delete, P.IsNext, Stays, Committed;
    var settled := PrepMove(moving, None);
    PrepMoveReads(moving, None);
    SecondCommitHides(dirs, i, moving, settled);
    StaysNotDropped(dirs, i, moving.id as nat);
    SumShows(dirs, moving);
    RewriteShows(dirs, i, [Delete(moving.id as nat)], log, settled, moving);
    var after := Rewrite(dirs, i, log, settled, moving);
    NotMoving(after, settled, settled);
    NotMovingSum(after, settled);
  }

  /** The rename from the point where both paths are resolved. The two pairs run on the same power,
      which is enough for `power` device operations; after it fails, both pairs are fetched. */
  method RenameOnDevice(dirs: seq<Mdir>, gstate0: GState, gdisk: GState, r: Rename, dst: P.Pair, src: P.Pair,
      power: nat, rooms: (nat, nat), junks: (nat, nat), torns: (bool, bool))
    returns (after: seq<Mdir>, commits: nat)
    requires GoodDirs(dirs) && Conserved(dirs, gdisk, ZERO) && !HasMove(gdisk) && !HasMove(gstate0)
    requires r.Valid(Listings(dirs)) && !r.Samepair() && Stays(dirs, r.src)
    requires dst != src && dst.Valid() && src.Valid() && dst.log == dirs[r.dst].log && src.log == dirs[r.src].log
    requires junks.0 < WORD && junks.1 < WORD
    modifies dst, src
    ensures dst.Valid() && src.Valid() && |after| == |dirs| && dst.log == after[r.dst].log
            && src.log == after[r.src].log
    ensures forall i :: 0 <= i < |dirs| && i != r.src && i != r.dst ==> after[i] == dirs[i]
    ensures DiskView(after) == if commits == 0 then DiskView(dirs) else RenamedDirs(dirs, r)
    ensures GoodDirs(after) && MoveOk(after, Sum(Deltas(after))) && commits <= 2
    ensures var attrs := RenameAttrsFor(dirs, r);
            power > P.Cost(dirs[r.dst].log, attrs) + P.Cost(dirs[r.src].log, [Delete(r.srcid)]) ==> commits == 2
    ensures commits == 2 ==> !HasMove(Sum(Deltas(after)))
  {
    hide GoodDirs, Conserved, Listing, Sum, Deltas, HasMove, MoveOk, Moving, DiskView, RenamedDirs, RenameAttrsFor,
         Delete, P.IsNext, P.Holds, P.Cost, Stays, Rewrite;
    after, commits := dirs, 0;
    NotMoving(dirs, gdisk, gstate0);
    dst.power := power;
    var done := dst.CommitAndFetch(RenameAttrsFor(dirs, r), rooms.0, junks.0, torns.0);
    if !done {
      return;
    }
    var moving := Moving(dirs, r, gstate0);
    after, commits := Rewrite(dirs, r.dst, dst.log, moving, gdisk), 1;
    FirstDone(dirs, gstate0, gdisk, r, dst.log);
    RewriteIs(dirs, r.dst, dst.log, moving, gdisk);
    // the same supply goes on with the second pair
    src.power := dst.power;
    done := src.CommitAndFetch([Delete(r.srcid)], rooms.1, junks.1, torns.1);
    if !done {
      return;
    }
    SecondDone(after, r.src, moving, src.log);
    RewriteIs(after, r.src, src.log, PrepMove(moving, None), moving);
    after, commits := Rewrite(after, r.src, src.log, PrepMove(moving, None), moving), 2;
  }

  lemma RewriteIs(dirs: seq<Mdir>, i: nat, log: seq<Rec>, gstate: GState, gdisk: GState)
    requires i < |dirs|
    ensures var after := Rewrite(dirs, i, log, gstate, gdisk);
            |after| == |dirs| && after[i].log == log && forall k :: 0 <= k < |dirs| && k != i ==> after[k] == dirs[k]
  {
  }
}
