/** The metadata pairs of a filesystem and the commits that span several of them.

    The disk is the list of reachable metadata pairs, each with its log and its delta of the
    global state. A commit to one pair is atomic; everything here is about what is on disk between
    two commits. Commits may split the pair they go to, or drop it when they empty it; what readers
    see is told per directory, its pairs put together. The module proves that the deltas always add
    up to the committed global state, and that renaming is atomic although it takes two commits. */
module Filesystem {
  import opened MetaLog
  import opened Compaction
  import opened Directory
  import opened GState

  datatype Pair = Pair(a: bv32, b: bv32) {

    /** lfs_pair_cmp reports two pairs equal when they have any block in common. */
    predicate Shares(other: Pair) {
      a == other.a || b == other.b || a == other.b || b == other.a
    }
  }

  lemma SharesBlock(p: Pair, q: Pair)
    ensures p.Shares(q) <==> {p.a, p.b} * {q.a, q.b} != {}
  {
    assert p.Shares(q) ==> p.a in {p.a, p.b} * {q.a, q.b} || p.b in {p.a, p.b} * {q.a, q.b};
  }

  /** A metadata pair; `split` says that the next pair on the list continues its directory. */
  datatype Mdir = Mdir(pair: Pair, log: seq<Rec>, delta: GState, split: bool)

  function Deltas(dirs: seq<Mdir>): (r: seq<GState>)
    ensures |r| == |dirs|
  {
    seq(|dirs|, i requires 0 <= i < |dirs| => dirs[i].delta)
  }

  /** The list with the i-th pair replaced by others. */
  function Put(dirs: seq<Mdir>, i: nat, parts: seq<Mdir>): seq<Mdir>
    requires i < |dirs|
  {
    dirs[..i] + parts + dirs[i + 1..]
  }

  /** The list with the pair after the i-th taken off: its tail is stolen. */
  function Unlinked(dirs: seq<Mdir>, i: nat): seq<Mdir>
    requires i + 1 < |dirs|
  {
    dirs[..i] + [dirs[i].(split := dirs[i + 1].split)] + dirs[i + 2..]
  }

  // ---------------------------------------------------------------- conservation

  /** What is on disk and what was taken off it but not written back add up to the last committed
      global state, orphan counts aside. */
  predicate Conserved(dirs: seq<Mdir>, gdisk: GState, gdelta: GState) {
    Masked(Xor(Sum(Deltas(dirs)), gdelta)) == Masked(gdisk)
  }

  /** The part of the global state that the next commit has to write. */
  function Pending(gstate: GState, gdisk: GState, gdelta: GState): GState {
    Masked(Xor(Xor(gstate, gdisk), gdelta))
  }

  lemma SumReplace(a: seq<GState>, m: seq<GState>, x: GState, b: seq<GState>)
    requires Sum(m) == x
    ensures Sum(a + m + b) == Sum(a + [x] + b)
  {
    hide Xor, Sum;
    SumConcat(a + m, b);
    SumConcat(a, m);
    SumConcat(a + [x], b);
    SumConcat(a, [x]);
    SumOne(x);
  }

  lemma SumPut(dirs: seq<Mdir>, i: nat, parts: seq<Mdir>)
    requires i < |dirs|
    ensures Sum(Deltas(Put(dirs, i, parts))) == Xor(Sum(Deltas(dirs)), Xor(dirs[i].delta, Sum(Deltas(parts))))
  {
    hide Xor, Sum;
    var x := Sum(Deltas(parts));
    SumReplace(Deltas(dirs[..i]), Deltas(parts), x, Deltas(dirs[i + 1..]));
    assert Deltas(Put(dirs, i, parts)) == Deltas(dirs[..i]) + Deltas(parts) + Deltas(dirs[i + 1..]);
    assert Deltas(dirs)[i := x] == Deltas(dirs[..i]) + [x] + Deltas(dirs[i + 1..]);
    SumUpdate(Deltas(dirs), i, x);
  }

  /** Writing the pending part along with any one pair, into however many pairs that turns it,
      settles the books. */
  lemma CommitSettles(dirs: seq<Mdir>, i: nat, parts: seq<Mdir>, gstate: GState, gdisk: GState, gdelta: GState)
    requires i < |dirs| && Conserved(dirs, gdisk, gdelta)
    requires Sum(Deltas(parts)) == Xor(Pending(gstate, gdisk, gdelta), dirs[i].delta)
    ensures Conserved(Put(dirs, i, parts), gstate, ZERO)
  {
    hide Xor, Masked, Sum, Deltas;
    var s, p, own := Sum(Deltas(dirs)), Pending(gstate, gdisk, gdelta), dirs[i].delta;
    SumPut(dirs, i, parts);
    // the pair's own delta cancels
    XorLaws(own, p, own);
    XorLaws(p, own, own);
    XorLaws(own, ZERO, ZERO);
    XorLaws(p, ZERO, ZERO);
    assert Xor(own, Xor(p, own)) == p;
    Settle(s, gstate, gdisk, gdelta);
    XorLaws(Xor(s, p), ZERO, ZERO);
  }

  lemma Settle(s: GState, gstate: GState, gdisk: GState, gdelta: GState)
    requires Masked(Xor(s, gdelta)) == Masked(gdisk)
    ensures Masked(Xor(s, Pending(gstate, gdisk, gdelta))) == Masked(gstate)
  {
    hide Xor, Masked;
    var ms, mg, md, mx := Masked(s), Masked(gstate), Masked(gdisk), Masked(gdelta);
    XorLaws(s, gdelta, ZERO);
    XorLaws(gstate, gdisk, ZERO);
    XorLaws(Xor(gstate, gdisk), gdelta, ZERO);
    XorLaws(s, Pending(gstate, gdisk, gdelta), ZERO);
    XorLaws(Xor(Xor(gstate, gdisk), gdelta), ZERO, ZERO);
    assert Masked(Xor(s, Pending(gstate, gdisk, gdelta))) == Xor(ms, Xor(Xor(mg, md), mx));
    // ms ^ ((mg ^ md) ^ mx) == (ms ^ mx) ^ (mg ^ md) == md ^ (mg ^ md) == mg
    XorLaws(Xor(mg, md), mx, ZERO);
    XorLaws(ms, mx, Xor(mg, md));
    XorLaws(md, mg, md);
    XorLaws(mg, md, md);
    XorLaws(md, ZERO, ZERO);
    XorLaws(mg, ZERO, ZERO);
  }

  /** Taking a pair off the list and its delta into RAM keeps the books, and the one commit to the
      predecessor that unlinks it settles them. */
  lemma DropSettles(dirs: seq<Mdir>, i: nat, parts: seq<Mdir>, gstate: GState, gdisk: GState, gdelta: GState)
    requires i + 1 < |dirs| && Conserved(dirs, gdisk, gdelta)
    requires Sum(Deltas(parts)) == Xor(Pending(gstate, gdisk, Xor(gdelta, dirs[i + 1].delta)), dirs[i].delta)
    ensures Conserved(Unlinked(dirs, i), gdisk, Xor(gdelta, dirs[i + 1].delta))
    ensures Conserved(Put(Unlinked(dirs, i), i, parts), gstate, ZERO)
  {
    hide Xor, Masked, Sum, Deltas;
    var less, stolen := Unlinked(dirs, i), dirs[i + 1].delta;
    DeltasWithout(dirs, i);
    SumInsert(Deltas(less), i + 1, stolen);
    // the sum without the pair, with its delta in gdelta, is what it was
    XorLaws(Sum(Deltas(less)), stolen, gdelta);
    XorLaws(stolen, gdelta, ZERO);
    CommitSettles(less, i, parts, gstate, gdisk, Xor(gdelta, stolen));
  }

  lemma DeltasWithout(dirs: seq<Mdir>, i: nat)
    requires i + 1 < |dirs|
    ensures var less := Deltas(Unlinked(dirs, i));
            |less| > i && Deltas(dirs) == less[..i + 1] + [dirs[i + 1].delta] + less[i + 1..]
  {
  }

  /** Splitting a pair: the new tails carry the pending part, and the head keeps its delta. */
  lemma SplitSettles(dirs: seq<Mdir>, i: nat, head: Mdir, tails: seq<Mdir>, gstate: GState, gdisk: GState,
        gdelta: GState)
    requires i < |dirs| && Conserved(dirs, gdisk, gdelta)
    requires Sum(Deltas(tails)) == Pending(gstate, gdisk, gdelta) && head.delta == dirs[i].delta
    ensures Sum(Deltas([head] + tails)) == Xor(Pending(gstate, gdisk, gdelta), dirs[i].delta)
    ensures Conserved(Put(dirs, i, [head] + tails), gstate, ZERO)
  {
    hide Conserved, Pending;
    HeadSum(head, tails);
    CommitSettles(dirs, i, [head] + tails, gstate, gdisk, gdelta);
  }

  lemma HeadSum(head: Mdir, tails: seq<Mdir>)
    ensures Sum(Deltas([head] + tails)) == Xor(Sum(Deltas(tails)), head.delta)
  {
    hide Xor, Sum;
    assert Deltas([head] + tails) == [head.delta] + Deltas(tails);
    SumConcat([head.delta], Deltas(tails));
    SumOne(head.delta);
    XorLaws(head.delta, Sum(Deltas(tails)), ZERO);
  }

  /** A compaction that moves a pair to other blocks only folds in what was stolen, and leaves
      the global state for the commit that links it. */
  lemma RelocateSettles(dirs: seq<Mdir>, i: nat, dir: Mdir, gdisk: GState, gdelta: GState)
    requires i < |dirs| && Conserved(dirs, gdisk, gdelta)
    requires dir.delta == Xor(Masked(gdelta), dirs[i].delta)
    ensures Conserved(dirs[i := dir], gdisk, ZERO)
  {
    hide Xor, Sum;
    XorLaws(gdisk, ZERO, ZERO);
    XorLaws(Xor(gdisk, gdisk), gdelta, ZERO);
    XorLaws(ZERO, gdelta, ZERO);
    XorLaws(gdelta, ZERO, ZERO);
    assert Pending(gdisk, gdisk, gdelta) == Masked(gdelta);
    assert Deltas([dir]) == [dir.delta];
    SumOne(dir.delta);
    CommitSettles(dirs, i, [dir], gdisk, gdisk, gdelta);
    assert Put(dirs, i, [dir]) == dirs[i := dir];
  }

  // ---------------------------------------------------------------- what readers see

  predicate MoveHere(g: GState, pair: Pair) {
    HasMove(g) && Pair(g.pair0, g.pair1).Shares(pair)
  }

  /** A pair's listing once a pending move out of it is carried out. */
  function DirView(d: Mdir, g: GState): seq<EntryView> {
    if MoveHere(g, d.pair) && g.id as nat < |Listing(d.log)| then RemoveAt(Listing(d.log), g.id as nat)
    else Listing(d.log)
  }

  /** The listings of all pairs. */
  function View(dirs: seq<Mdir>, g: GState): (r: seq<seq<EntryView>>)
    ensures |r| == |dirs|
  {
    seq(|dirs|, i requires 0 <= i < |dirs| => DirView(dirs[i], g))
  }

  /** What one pair contributes to its directory. */
  datatype Piece = Piece(list: seq<EntryView>, split: bool)

  /** The listings of whole directories, their pairs put together. */
  function Group(pieces: seq<Piece>): seq<seq<EntryView>> {
    if pieces == [] then [] else
    var rest := Group(pieces[1..]);
    if pieces[0].split && rest != [] then [pieces[0].list + rest[0]] + rest[1..] else [pieces[0].list] + rest
  }

  function Pieces(v: seq<seq<EntryView>>, dirs: seq<Mdir>): (r: seq<Piece>)
    requires |v| == |dirs|
    ensures |r| == |dirs|
  {
    seq(|dirs|, i requires 0 <= i < |dirs| => Piece(v[i], dirs[i].split))
  }

  /** Directories, from the listings of their pairs. */
  function Directories(v: seq<seq<EntryView>>, dirs: seq<Mdir>): seq<seq<EntryView>>
    requires |v| == |dirs|
  {
    Group(Pieces(v, dirs))
  }

  /** What the disk shows once recovery has carried out the move that the deltas record, if they
      record one: its directories, with the global state being the sum of the deltas. */
  function DiskView(dirs: seq<Mdir>): seq<seq<EntryView>> {
    Directories(View(dirs, Sum(Deltas(dirs))), dirs)
  }

  /** Two pairs of a directory are as good as one with both their entries. */
  lemma {:induction false} GroupJoin(a: seq<Piece>, x: Piece, y: Piece, b: seq<Piece>)
    requires x.split
    ensures Group(a + [x, y] + b) == Group(a + [Piece(x.list + y.list, y.split)] + b)
    decreases |a|
  {
    var xy := Piece(x.list + y.list, y.split);
    if a == [] {
      JoinFirst(x, y, b);
      assert [] + [x, y] + b == [x, y] + b && [] + [xy] + b == [xy] + b;
    } else {
      assert (a + [x, y] + b)[1..] == a[1..] + [x, y] + b && (a + [xy] + b)[1..] == a[1..] + [xy] + b;
      GroupJoin(a[1..], x, y, b);
    }
  }

  lemma JoinFirst(x: Piece, y: Piece, b: seq<Piece>)
    requires x.split
    ensures Group([x, y] + b) == Group([Piece(x.list + y.list, y.split)] + b)
  {
    var xy := Piece(x.list + y.list, y.split);
    assert ([x, y] + b)[1..] == [y] + b && ([y] + b)[1..] == b && ([xy] + b)[1..] == b;
    var rest := Group(b);
    if y.split && rest != [] {
      assert Group([y] + b) == [y.list + rest[0]] + rest[1..];
      assert x.list + (y.list + rest[0]) == xy.list + rest[0];
    }
  }

  /** The entries of some pairs, one after the other. */
  function Together(pieces: seq<Piece>): seq<EntryView> {
    if pieces == [] then [] else pieces[0].list + Together(pieces[1..])
  }

  predicate OneDirectory(pieces: seq<Piece>) {
    pieces != [] && forall k :: 0 <= k < |pieces| - 1 ==> pieces[k].split
  }

  lemma {:induction false} GroupPieces(a: seq<Piece>, pieces: seq<Piece>, b: seq<Piece>)
    requires OneDirectory(pieces)
    ensures Group(a + pieces + b) == Group(a + [Piece(Together(pieces), pieces[|pieces| - 1].split)] + b)
    decreases |pieces|
  {
    if |pieces| == 1 {
      assert pieces[1..] == [] && pieces[0].list + [] == pieces[0].list;
      assert pieces == [Piece(Together(pieces), pieces[0].split)];
    } else {
      var x, y, rest := pieces[0], pieces[1], pieces[2..];
      var xy := Piece(x.list + y.list, y.split);
      assert a + pieces + b == a + [x, y] + (rest + b) && a + ([xy] + rest) + b == a + [xy] + (rest + b);
      GroupJoin(a, x, y, rest + b);
      GroupPieces(a, [xy] + rest, b);
      TogetherTwo(pieces);
    }
  }

  lemma TogetherTwo(pieces: seq<Piece>)
    requires |pieces| > 1
    ensures Together(pieces) == Together([Piece(pieces[0].list + pieces[1].list, pieces[1].split)] + pieces[2..])
  {
    var xy := Piece(pieces[0].list + pieces[1].list, pieces[1].split);
    assert ([xy] + pieces[2..])[1..] == pieces[2..] && pieces[1..][1..] == pieces[2..];
  }

  lemma ViewIgnoresSize(dirs: seq<Mdir>, g: GState, h: GState)
    requires Masked(g) == Masked(h)
    ensures View(dirs, g) == View(dirs, h)
  {
    assert HasMove(g) == HasMove(Masked(g)) && HasMove(h) == HasMove(Masked(h));
    assert forall i :: 0 <= i < |dirs| ==> DirView(dirs[i], g) == DirView(dirs[i], h);
  }

  // ---------------------------------------------------------------- pairs

  predicate Distinct(dirs: seq<Mdir>) {
    forall i, j :: 0 <= i < |dirs| && 0 <= j < |dirs| && dirs[i].pair.Shares(dirs[j].pair) ==> i == j
  }

  predicate GoodDirs(dirs: seq<Mdir>) {
    Distinct(dirs) && forall i :: 0 <= i < |dirs| ==> GoodDir(dirs[i].log)
  }

  /** The pairs that the allocator would hand out next are in use nowhere. */
  predicate FreeOk(dirs: seq<Mdir>, free: seq<Pair>) {
    && (forall i, j :: 0 <= i < |free| && 0 <= j < |free| && free[i].Shares(free[j]) ==> i == j)
    && forall i, j :: 0 <= i < |dirs| && 0 <= j < |free| ==> !dirs[i].pair.Shares(free[j])
  }

  /** What a commit may turn a pair into: itself with a new log, and tails behind it. */
  predicate Rewritten(d: Mdir, list: seq<EntryView>, parts: seq<Mdir>) {
    && parts != [] && parts[0].pair == d.pair && parts[|parts| - 1].split == d.split
    && (forall k :: 0 <= k < |parts| - 1 ==> parts[k].split)
    && (forall k :: 0 <= k < |parts| ==> GoodDir(parts[k].log))
    && Together(Pieces(Listings(parts), parts)) == list
  }

  function Listings(dirs: seq<Mdir>): (r: seq<seq<EntryView>>)
    ensures |r| == |dirs|
  {
    seq(|dirs|, i requires 0 <= i < |dirs| => Listing(dirs[i].log))
  }

  /** The tails' pairs come from the free ones, the last tail's first. */
  predicate TailsFrom(parts: seq<Mdir>, free0: seq<Pair>, free: seq<Pair>) {
    && 0 < |parts| <= |free0| + 1 && free == free0[|parts| - 1..]
    && forall k :: 0 < k < |parts| ==> parts[k].pair == free0[|parts| - 1 - k]
  }

  lemma StaysApart(base: seq<Mdir>, i: nat, parts: seq<Mdir>, free0: seq<Pair>, free: seq<Pair>)
    requires i < |base| && Distinct(base) && FreeOk(base, free0)
    requires TailsFrom(parts, free0, free) && parts[0].pair == base[i].pair
    ensures Distinct(Put(base, i, parts)) && FreeOk(Put(base, i, parts), free)
  {
    var after := Put(base, i, parts);
    var n := |parts|;
    forall k | 0 <= k < |after|
      ensures if i < k < i + n then after[k].pair == free0[n - 1 - (k - i)]
              else var o := if k <= i then k else k - n + 1; o < |base| && after[k].pair == base[o].pair
    {
      if i <= k < i + n {
        assert after[k] == parts[k - i];
      } else if k >= i + n {
        assert after[k] == base[i + 1..][k - i - n];
      }
    }
    forall k, l | 0 <= k < |after| && 0 <= l < |after| && after[k].pair.Shares(after[l].pair)
      ensures k == l
    {
      assert after[l].pair.Shares(after[k].pair);
    }
    forall k, l | 0 <= k < |after| && 0 <= l < |free|
      ensures !after[k].pair.Shares(free[l])
    {
      assert free[l] == free0[n - 1 + l];
    }
    forall k, l | 0 <= k < |free| && 0 <= l < |free| && free[k].Shares(free[l])
      ensures k == l
    {
      assert free[l] == free0[n - 1 + l] && free[k] == free0[n - 1 + k];
    }
  }

  lemma UnlinkedApart(dirs: seq<Mdir>, i: nat, free: seq<Pair>)
    requires i + 1 < |dirs| && GoodDirs(dirs) && FreeOk(dirs, free)
    ensures GoodDirs(Unlinked(dirs, i)) && FreeOk(Unlinked(dirs, i), free)
  {
    hide GoodDir;
    var less := Unlinked(dirs, i);
    forall k | 0 <= k < |less|
      ensures var o := if k <= i then k else k + 1; less[k].pair == dirs[o].pair && less[k].log == dirs[o].log
    {
      if k > i {
        assert less[k] == dirs[i + 2..][k - i - 1];
      }
    }
  }

  // ---------------------------------------------------------------- commits and views

  /** A commit to the i-th pair of a list shows as that pair's new listing, however many pairs it
      was split into. */
  lemma RewrittenShows(base: seq<Mdir>, i: nat, list: seq<EntryView>, parts: seq<Mdir>, g: GState)
    requires i < |base| && Rewritten(base[i], list, parts)
    requires forall k :: 0 <= k < |parts| ==> !MoveHere(g, parts[k].pair)
    ensures var after := Put(base, i, parts);
            Directories(View(after, g), after) == Directories(View(base, g)[i := list], base)
  {
    hide Listing, GoodDir, MoveHere;
    var after, all := Put(base, i, parts), Pieces(View(base, g), base);
    var own, b := Pieces(Listings(parts), parts), all[i + 1..];
    assert Pieces(View(after, g), after) == all[..i] + own + b by {
      PutPieces(base, i, parts, g);
    }
    assert Pieces(View(base, g)[i := list], base) == all[..i] + [Piece(list, base[i].split)] + b;
    GroupPieces(all[..i], own, b);
  }

  lemma PutPieces(base: seq<Mdir>, i: nat, parts: seq<Mdir>, g: GState)
    requires i < |base|
    requires forall k :: 0 <= k < |parts| ==> !MoveHere(g, parts[k].pair)
    ensures var after, all := Put(base, i, parts), Pieces(View(base, g), base);
            Pieces(View(after, g), after) == all[..i] + Pieces(Listings(parts), parts) + all[i + 1..]
  {
    hide Listing, MoveHere;
    var after, all := Put(base, i, parts), Pieces(View(base, g), base);
    var want, n := all[..i] + Pieces(Listings(parts), parts) + all[i + 1..], |parts|;
    forall k | 0 <= k < |after|
      ensures Piece(DirView(after[k], g), after[k].split) == want[k]
    {
      if k < i {
        assert after[k] == base[k];
      } else if k < i + n {
        assert after[k] == parts[k - i];
      } else {
        assert after[k] == base[i + 1..][k - i - n] && want[k] == all[i + 1..][k - i - n];
      }
    }
  }

  /** An empty pair can be taken out of its directory without a trace. */
  lemma UnlinkedShows(v: seq<seq<EntryView>>, dirs: seq<Mdir>, i: nat)
    requires i + 1 < |dirs| == |v| && v[i + 1] == [] && dirs[i].split
    ensures Directories(v[..i + 1] + v[i + 2..], Unlinked(dirs, i)) == Directories(v, dirs)
  {
    hide Group;
    var all, x, y := Pieces(v, dirs), Piece(v[i], true), Piece([], dirs[i + 1].split);
    var less := Pieces(v[..i + 1] + v[i + 2..], Unlinked(dirs, i));
    GroupJoin(all[..i], x, y, all[i + 2..]);
    assert all == all[..i] + [x, y] + all[i + 2..];
    assert x.list + y.list == v[i];
    assert less == all[..i] + [Piece(v[i], y.split)] + all[i + 2..];
  }

  lemma ViewUnlinked(dirs: seq<Mdir>, i: nat, g: GState)
    requires i + 1 < |dirs|
    ensures View(Unlinked(dirs, i), g) == View(dirs, g)[..i + 1] + View(dirs, g)[i + 2..]
  {
    hide Listing, MoveHere;
  }

  /** Where the directories of two parts of the list meet, they stay apart. */
  lemma {:induction false} GroupConcat(a: seq<Piece>, b: seq<Piece>)
    requires a == [] || !a[|a| - 1].split
    ensures Group(a + b) == Group(a) + Group(b)
    ensures a != [] ==> Group(a) != []
    decreases |a|
  {
    hide Group;
    if a == [] {
      assert a + b == b;
      GroupNone();
    } else {
      var x, rest := a[0], a[1..];
      assert a == [x] + rest && a + b == [x] + (rest + b);
      GroupConcat(rest, b);
      GroupFirst(x, rest);
      GroupFirst(x, rest + b);
      GroupNone();
    }
  }

  lemma GroupNone()
    ensures Group([]) == []
  {
  }

  lemma GroupFirst(x: Piece, rest: seq<Piece>)
    ensures var g := Group(rest);
            Group([x] + rest) == if x.split && g != [] then [x.list + g[0]] + g[1..] else [x.list] + g
    ensures Group([x] + rest) != []
  {
    assert ([x] + rest)[1..] == rest;
  }

  lemma RemoveMiddle<T>(a: seq<T>, x: T, b: seq<T>)
    ensures (a + ([x] + b))[|a|] == x && RemoveAt(a + ([x] + b), |a|) == a + b
  {
  }

  /** Taking an empty directory off the list: it, and nothing else, is gone. */
  lemma OrphanShows(v: seq<seq<EntryView>>, dirs: seq<Mdir>, i: nat)
    requires i + 1 < |dirs| == |v| && v[i + 1] == [] && !dirs[i].split && !dirs[i + 1].split
    ensures exists k :: 0 <= k < |Directories(v, dirs)| && Directories(v, dirs)[k] == [] &&
              Directories(v[..i + 1] + v[i + 2..], Unlinked(dirs, i)) == RemoveAt(Directories(v, dirs), k)
  {
    var all, empty := Pieces(v, dirs), Piece([], false);
    var a, b := all[..i + 1], all[i + 2..];
    assert all == a + ([empty] + b);
    assert Pieces(v[..i + 1] + v[i + 2..], Unlinked(dirs, i)) == a + b;
    GroupConcat(a, [empty] + b);
    GroupConcat(a, b);
    GroupConcat([empty], b);
    assert [empty][1..] == [];
    assert Group([empty]) == [[]];
    RemoveMiddle(Group(a), [], Group(b));
    assert Directories(v, dirs) == Group(a) + ([[]] + Group(b));
  }

  /** Whether a commit to a pair drops it instead: it was emptied by a delete, and an earlier pair
      of its directory is there to take its tail. */
  predicate Drops(dirs: seq<Mdir>, i: nat, attrs: seq<Mattr>)
    requires i < |dirs|
  {
    HasDelete(attrs) && Listing(dirs[i].log + Expand(attrs)) == [] && i > 0 && dirs[i - 1].split
  }

  predicate HasDelete(attrs: seq<Mattr>) {
    exists k :: 0 <= k < |attrs| && attrs[k].tag.typ == TYPE_DELETE
  }

  /** Deleting an entry drops the pair exactly when it was the last one and the pair continues the
      one before it. */
  lemma DeleteDrops(dirs: seq<Mdir>, i: nat, id: nat)
    requires i < |dirs| && GoodDir(dirs[i].log) && id < |Listing(dirs[i].log)|
    ensures Drops(dirs, i, [Delete(id)]) <==> |Listing(dirs[i].log)| == 1 && i > 0 && dirs[i - 1].split
  {
    hide GoodDir, Listing, Expand, GoodCommit;
    DeleteGood(dirs[i].log, id);
    assert [Delete(id)][0].tag.typ == TYPE_DELETE;
  }

  /** A list after the i-th pair of another was written: nothing else changed. */
  predicate Wrote(base: seq<Mdir>, after: seq<Mdir>, i: nat, list: seq<EntryView>) {
    && i < |base| <= |after|
    && after == Put(base, i, Written(base, after, i)) && Rewritten(base[i], list, Written(base, after, i))
  }

  function Written(base: seq<Mdir>, after: seq<Mdir>, i: nat): seq<Mdir>
    requires i < |base| <= |after|
  {
    after[i..i + |after| - |base| + 1]
  }

  predicate Committed(before: seq<Mdir>, after: seq<Mdir>, i: nat, attrs: seq<Mattr>)
    requires i < |before|
  {
    if Drops(before, i, attrs) then Wrote(Unlinked(before, i - 1), after, i - 1, Listing(before[i - 1].log))
    else Wrote(before, after, i, Listing(before[i].log + Expand(attrs)))
  }

  /** The global state records no move out of the pair that is written, and none out of a pair that
      is not on the list. */
  predicate MoveAway(dirs: seq<Mdir>, i: nat, g: GState) {
    && (forall j :: 0 <= j < |dirs| && MoveHere(g, dirs[j].pair) ==> j != i)
    && (HasMove(g) ==> exists j :: 0 <= j < |dirs| && dirs[j].pair == Pair(g.pair0, g.pair1))
  }

  lemma MoveNotInNew(base: seq<Mdir>, after: seq<Mdir>, i: nat, list: seq<EntryView>, g: GState)
    requires Wrote(base, after, i, list) && Distinct(after) && MoveAway(base, i, g)
    ensures forall k :: 0 <= k < |Written(base, after, i)| ==> !MoveHere(g, Written(base, after, i)[k].pair)
  {
    hide Rewritten, HasMove;
    var parts := Written(base, after, i);
    if HasMove(g) {
      var j :| 0 <= j < |base| && base[j].pair == Pair(g.pair0, g.pair1);
      assert MoveHere(g, base[j].pair);
      var l := if j < i then j else j + |parts| - 1;
      assert after[l] == base[j];
      forall k | 0 <= k < |parts|
        ensures !MoveHere(g, parts[k].pair)
      {
        assert after[i + k] == parts[k];
        assert after[l].pair.Shares(after[i + k].pair) ==> l == i + k;
      }
    }
  }

  /** After any commit, readers see the new listing in place of the old one and nothing else
      changed, whether the pair was rewritten, split or dropped. */
  lemma CommittedShows(before: seq<Mdir>, after: seq<Mdir>, i: nat, attrs: seq<Mattr>, g: GState)
    requires i < |before| && Committed(before, after, i, attrs) && Distinct(after)
    requires if Drops(before, i, attrs) then !HasMove(g) else MoveAway(before, i, g)
    ensures Directories(View(after, g), after) ==
            Directories(View(before, g)[i := Listing(before[i].log + Expand(attrs))], before)
  {
    hide Listing, GoodDir, Rewritten, Expand, HasDelete, Distinct, HasMove, Group, Put;
    var list := Listing(before[i].log + Expand(attrs));
    if Drops(before, i, attrs) {
      var base, kept := Unlinked(before, i - 1), Listing(before[i - 1].log);
      ViewUnlinked(before, i - 1, g);
      var v := View(before, g)[i := list];
      UnlinkedShows(v, before, i - 1);
      assert v[..i] + v[i + 1..] == View(base, g);
      MoveNotInNew(base, after, i - 1, kept, g);
      RewrittenShows(base, i - 1, kept, Written(base, after, i - 1), g);
      assert View(base, g)[i - 1 := kept] == View(base, g);
    } else {
      MoveNotInNew(before, after, i, list, g);
      RewrittenShows(before, i, list, Written(before, after, i), g);
    }
  }

  /** lfs_fs_prepmove: records in RAM that an id of a pair is about to move, or (None) that
      nothing is. */
  function PrepMove(g: GState, move: Option<(bv10, Pair)>): GState {
    match move
    case None => GState(g.typ & 0x800, 0, g.size, 0, 0)
    case Some((id, pair)) => GState((g.typ & 0x800) | 0x4ff, id, g.size, pair.a, pair.b)
  }

  lemma PrepMoveReads(g: GState, move: Option<(bv10, Pair)>)
    ensures HasMove(PrepMove(g, move)) <==> move.Some?
    ensures move.Some? ==> PrepMove(g, move).id == move.value.0
    ensures move.Some? ==> Pair(PrepMove(g, move).pair0, PrepMove(g, move).pair1) == move.value.1
  {
    match move {
      case None => assert (g.typ & 0x800) & 0x700 == 0;
      case Some((id, pair)) =>
        assert ((g.typ & 0x800) | 0x4ff) & 0x700 != 0;
    }
  }

  /** The valid bit and the size bits, which stand for orphans, are left as they are, and a move is
      recorded as the delete that carries it out. */
  lemma PrepMoveKeeps(g: GState, move: Option<(bv10, Pair)>)
    ensures var h := PrepMove(g, move);
            && h.size == g.size && h.typ & 0x800 == g.typ & 0x800
            && h.typ & 0x7ff == (if move.Some? then 0x4ff else 0)
            && (move.None? ==> h.id == 0 && h.pair0 == 0 && h.pair1 == 0)
  {
    OrphanBit(g.typ);
  }

  lemma OrphanBit(t: bv12)
    ensures (t & 0x800) & 0x800 == t & 0x800 && (t & 0x800) & 0x7ff == 0
    ensures ((t & 0x800) | 0x4ff) & 0x800 == t & 0x800 && ((t & 0x800) | 0x4ff) & 0x7ff == 0x4ff
  {
  }

  // ---------------------------------------------------------------- rename

  /** A rename as lfs_rename_ sees it once both paths are resolved: entry `id10` of pair `src`
      becomes `dstid` of pair `dst`, in place of an entry there if `prev`. */
  datatype Rename = Rename(src: nat, id10: bv10, dst: nat, dstid: nat, prev: bool, name: Attr) {

    /** The id of the entry to move, a ten-bit field of the global state. */
    const srcid: nat := id10 as nat

    predicate Samepair() {
      src == dst
    }

    predicate Valid(v: seq<seq<EntryView>>) {
      && src < |v| && dst < |v| && srcid < |v[src]| && ValidName(name)
      && (if prev then dstid < |v[dst]| else dstid <= |v[dst]| < MAX_ENTRIES)
      && !(Samepair() && prev && dstid == srcid)
    }

    /** Where the old entry is once the new one is in place. */
    function NewOldId(): nat {
      if Samepair() && !prev && dstid <= srcid then srcid + 1 else srcid
    }
  }

  /** The view after a rename: the entry is gone from its old place and shows, under its new
      name, at the new one. */
  function RenamedView(v: seq<seq<EntryView>>, r: Rename): seq<seq<EntryView>>
    requires r.Valid(v)
  {
    var moved := MovedView(v[r.src][r.srcid], r.name);
    if r.Samepair() then
      v[r.dst := RenamedListing(v[r.dst], r.dstid, r.prev, moved, Some(r.NewOldId()))]
    else
      v[r.dst := RenamedListing(v[r.dst], r.dstid, r.prev, moved, None)]
       [r.src := RemoveAt(v[r.src], r.srcid)]
  }

  function RenameAttrsFor(dirs: seq<Mdir>, r: Rename): seq<Mattr>
    requires r.src < |dirs|
  {
    RenameAttrs(r.dstid, r.prev, r.name, MoveAttrs(dirs[r.src].log, r.srcid),
                if r.Samepair() then Some(r.NewOldId()) else None)
  }

  lemma ViewsAre(dirs: seq<Mdir>, g: GState)
    requires !HasMove(g)
    ensures View(dirs, g) == Listings(dirs)
  {
  }

  /** The directories after a rename. */
  function RenamedDirs(dirs: seq<Mdir>, r: Rename): seq<seq<EntryView>>
    requires r.Valid(Listings(dirs))
  {
    Directories(RenamedView(Listings(dirs), r), dirs)
  }

  /** The rename's first commit shows the renamed directories: a rename within one pair is over, any
      other is recorded as a pending move by the same commit, which recovery carries out. */
  lemma FirstCommitShows(dirs: seq<Mdir>, r: Rename, g: GState)
    requires GoodDirs(dirs) && r.Valid(Listings(dirs)) && !HasMove(g)
    ensures GoodCommit(dirs[r.dst].log, RenameAttrsFor(dirs, r)) && !Drops(dirs, r.dst, RenameAttrsFor(dirs, r))
    ensures var g' := if r.Samepair() then g else PrepMove(g, Some((r.id10, dirs[r.src].pair)));
            && MoveAway(dirs, r.dst, g')
            && RenamedView(Listings(dirs), r) ==
                View(dirs, g')[r.dst := Listing(dirs[r.dst].log + Expand(RenameAttrsFor(dirs, r)))]
  {
    hide GoodDir, Listing, RenameAttrs, MoveAttrs, HasMove, PrepMove, MovedView, Expand, GoodCommit, RenamedListing;
    var move := if r.Samepair() then None else Some((r.id10, dirs[r.src].pair));
    var after := if r.Samepair() then Some(r.NewOldId()) else None;
    var g' := if r.Samepair() then g else PrepMove(g, move);
    RenameGood(dirs[r.dst].log, dirs[r.src].log, r.srcid, r.dstid, r.prev, r.name, after);
    RenamedSize(Listing(dirs[r.dst].log), r.dstid, r.prev, MovedView(Listing(dirs[r.src].log)[r.srcid], r.name), after);
    if r.Samepair() {
      ViewsAre(dirs, g);
    } else {
      PrepMoveReads(g, move);
      OnlyMoveHere(dirs, r.src, g');
      MovedAway(dirs, r.src, g');
    }
    assert RenamedView(Listings(dirs), r) ==
        View(dirs, g')[r.dst := Listing(dirs[r.dst].log + Expand(RenameAttrsFor(dirs, r)))];
  }

  lemma RenamedSize(v: seq<EntryView>, newid: nat, prev: bool, moved: EntryView, after: Option<nat>)
    requires if prev then newid < |v| else newid <= |v|
    requires after.Some? ==> after.value < |v| + (if prev then 0 else 1) && after.value != newid
    ensures RenamedListing(v, newid, prev, moved, after) != []
  {
  }

  /** A move out of one pair is a move out of no other. */
  lemma OnlyMoveHere(dirs: seq<Mdir>, i: nat, g: GState)
    requires Distinct(dirs) && i < |dirs| && HasMove(g) && Pair(g.pair0, g.pair1) == dirs[i].pair
    ensures forall k :: 0 <= k < |dirs| ==> (MoveHere(g, dirs[k].pair) <==> k == i)
  {
    forall k | 0 <= k < |dirs|
      ensures MoveHere(g, dirs[k].pair) <==> k == i
    {
      assert dirs[i].pair.Shares(dirs[k].pair) ==> i == k;
    }
  }

  /** What the pending move does to the view. */
  lemma MovedAway(dirs: seq<Mdir>, i: nat, g: GState)
    requires Distinct(dirs) && i < |dirs| && HasMove(g) && Pair(g.pair0, g.pair1) == dirs[i].pair
    requires g.id as nat < |Listing(dirs[i].log)|
    ensures View(dirs, g) == Listings(dirs)[i := RemoveAt(Listing(dirs[i].log), g.id as nat)]
  {
    hide Listing, HasMove, Distinct;
    OnlyMoveHere(dirs, i, g);
  }

  /** Deleting the moved entry while clearing the pending move, in one commit, changes nothing a
      reader sees. */
  lemma SecondCommitHides(dirs: seq<Mdir>, i: nat, g: GState, g': GState)
    requires GoodDirs(dirs) && i < |dirs| && HasMove(g) && Pair(g.pair0, g.pair1) == dirs[i].pair
    requires g.id as nat < |Listing(dirs[i].log)| && !HasMove(g')
    ensures GoodCommit(dirs[i].log, [Delete(g.id as nat)]) && MoveAway(dirs, i, g')
    ensures View(dirs, g')[i := Listing(dirs[i].log + Expand([Delete(g.id as nat)]))] == View(dirs, g)
  {
    hide GoodDir, Listing, Distinct, HasMove, GoodCommit, Expand;
    DeleteGood(dirs[i].log, g.id as nat);
    MovedAway(dirs, i, g);
    ViewsAre(dirs, g');
  }

  // ---------------------------------------------------------------- the running filesystem

  /** The pending move names an entry that exists. */
  predicate MoveOk(dirs: seq<Mdir>, g: GState) {
    HasMove(g) ==>
      exists i :: 0 <= i < |dirs| && dirs[i].pair == Pair(g.pair0, g.pair1) && g.id as nat < |Listing(dirs[i].log)|
  }

  /** The tails a split made so far: they hold the entries from an id on. */
  predicate TailsOk(tails: seq<Mdir>, list: seq<EntryView>, split: bool) {
    && (forall k :: 0 <= k < |tails| ==> GoodDir(tails[k].log))
    && (forall k :: 0 <= k < |tails| - 1 ==> tails[k].split) && (tails != [] ==> tails[|tails| - 1].split == split)
    && Together(Pieces(Listings(tails), tails)) == list
  }

  /** The tails begin where the cut before their last entry fell, the first one at `begin`. */
  predicate CutAt(tails: seq<Mdir>, cut: (seq<Rec>, seq<Mattr>, nat) -> nat, log: seq<Rec>, attrs: seq<Mattr>,
      begin: nat)
  {
    tails == [] ||
    var end := begin + |Listing(tails[0].log)|;
    0 < begin < end && cut(log, attrs, end) == begin && CutAt(tails[1..], cut, log, attrs, end)
  }

  lemma OneMoreCut(tail: Mdir, tails: seq<Mdir>, cut: (seq<Rec>, seq<Mattr>, nat) -> nat, log: seq<Rec>,
      attrs: seq<Mattr>, begin: nat, end: nat)
    requires CutAt(tails, cut, log, attrs, end) && 0 < begin < end && cut(log, attrs, end) == begin
    requires |Listing(tail.log)| == end - begin
    ensures CutAt([tail] + tails, cut, log, attrs, begin)
  {
    assert ([tail] + tails)[1..] == tails;
  }

  lemma OneMoreTail(tail: Mdir, tails: seq<Mdir>, list: seq<EntryView>, split: bool)
    requires TailsOk(tails, list, split) && GoodDir(tail.log) && tail.split == (tails != [] || split)
    ensures TailsOk([tail] + tails, Listing(tail.log) + list, split)
  {
    hide GoodDir, Listing;
    var more := [tail] + tails;
    assert Pieces(Listings(more), more)[1..] == Pieces(Listings(tails), tails);
  }

  lemma TailsRewrite(d: Mdir, list: seq<EntryView>, parts: seq<Mdir>)
    requires parts != [] && parts[0].pair == d.pair && TailsOk(parts, list, d.split)
    ensures Rewritten(d, list, parts)
  {
  }

  /** lfs_dir_splittingcompact: tails are split off from the end, each written before anything leads
      to it; the first one written takes the pending part of the global state along. Nothing reaches
      the tails until the pair itself is rewritten. */
  method SplittingCompact(d: Mdir, attrs: seq<Mattr>, cut: (seq<Rec>, seq<Mattr>, nat) -> nat, free0: seq<Pair>,
      gstate: GState, gdisk0: GState, gdelta0: GState)
    returns (parts: seq<Mdir>, free: seq<Pair>)
    requires GoodCommit(d.log, attrs)
    ensures Rewritten(d, Listing(d.log + Expand(attrs)), parts) && TailsFrom(parts, free0, free)
    ensures Sum(Deltas(parts)) == Xor(Pending(gstate, gdisk0, gdelta0), d.delta)
    ensures var n := |Listing(parts[0].log)|;
            CutAt(parts[1..], cut, d.log, attrs, n) && (free == [] || !(0 < cut(d.log, attrs, n) < n))
  {
    hide GoodDir, Replay, Expand, GoodCommit, Sum, Deltas, Xor, Masked, RangeLog, Listing, TailsOk, TailsPaid,
         TailPairs, Pending;
    ghost var list := Listing(d.log + Expand(attrs));
    var tails, split, gdisk, gdelta := [], d.split, gdisk0, gdelta0;
    var end: nat := Count(d.log, attrs);
    free := free0;
    NoTails(list, split);
    NoneTaken(free0);
    assert CutAt(tails, cut, d.log, attrs, end);
    hide CutAt;
    while true
      invariant end <= |list| && TailsOk(tails, list[end..], d.split) && split == (tails != [] || d.split)
      invariant TailPairs(tails, free0, free) && CutAt(tails, cut, d.log, attrs, end)
      invariant if tails == [] then gdisk == gdisk0 && gdelta == gdelta0
              else TailsPaid(tails, gstate, gdisk0, gdelta0, gdisk, gdelta)
      decreases end
    {
      var at := cut(d.log, attrs, end);
      if !(0 < at < end) || free == [] {
        break;
      }
      var tail := Mdir(free[0], RangeLog(d.log, attrs, at, end), Masked(Xor(Xor(gdisk, gstate), gdelta)), split);
      PartTail(d.log, attrs, at, end, tail, tails, d.split);
      TakePair(tail, tails, free0, free);
      TailSum(tail, tails, gstate, gdisk0, gdelta0, gdisk, gdelta);
      OneMoreCut(tail, tails, cut, d.log, attrs, at, end);
      tails, free := [tail] + tails, free[1..];
      gdisk, gdelta, split, end := gstate, ZERO, true, at;
    }
    var head := Mdir(d.pair, RangeLog(d.log, attrs, 0, end), Xor(Masked(Xor(Xor(gdisk, gstate), gdelta)), d.delta),
        split);
    HeadTakes(head, tails, gstate, gdisk0, gdelta0, gdisk, gdelta, d.delta);
    PartTail(d.log, attrs, 0, end, head, tails, d.split);
    AllTaken(head, tails, free0, free);
    parts := [head] + tails;
    TailsRewrite(d, list, parts);
  }

  function Count(log: seq<Rec>, attrs: seq<Mattr>): (n: nat)
    ensures n == |Listing(log + Expand(attrs))|
  {
    |Replay(log + Expand(attrs))|
  }

  lemma NoTails(list: seq<EntryView>, split: bool)
    ensures TailsOk([], list[|list|..], split)
  {
  }

  lemma PartGood(log: seq<Rec>, attrs: seq<Mattr>, begin: nat, end: nat)
    requires GoodCommit(log, attrs) && begin <= end <= |Listing(log + Expand(attrs))|
    ensures GoodDir(RangeLog(log, attrs, begin, end))
    ensures Listing(RangeLog(log, attrs, begin, end)) == Listing(log + Expand(attrs))[begin..end]
  {
    RangeGood(log, attrs, begin, end);
  }

  lemma PartTail(log: seq<Rec>, attrs: seq<Mattr>, begin: nat, end: nat, tail: Mdir, tails: seq<Mdir>, split: bool)
    requires GoodCommit(log, attrs) && begin <= end <= |Listing(log + Expand(attrs))|
    requires tail.log == RangeLog(log, attrs, begin, end) && tail.split == (tails != [] || split)
    requires TailsOk(tails, Listing(log + Expand(attrs))[end..], split)
    ensures TailsOk([tail] + tails, Listing(log + Expand(attrs))[begin..], split)
    ensures begin == 0 ==> TailsOk([tail] + tails, Listing(log + Expand(attrs)), split)
    ensures |Listing(tail.log)| == end - begin
  {
    hide TailsOk, Listing, RangeLog, Expand, GoodDir, Replay;
    var list := Listing(log + Expand(attrs));
    PartGood(log, attrs, begin, end);
    OneMoreTail(tail, tails, list[end..], split);
    assert list[begin..] == list[begin..end] + list[end..];
  }

  /** The tails' pairs so far. */
  predicate TailPairs(tails: seq<Mdir>, free0: seq<Pair>, free: seq<Pair>) {
    && |tails| <= |free0| && free == free0[|tails|..]
    && forall k :: 0 <= k < |tails| ==> tails[k].pair == free0[|tails| - 1 - k]
  }

  lemma NoneTaken(free: seq<Pair>)
    ensures TailPairs([], free, free)
  {
  }

  lemma TakePair(tail: Mdir, tails: seq<Mdir>, free0: seq<Pair>, free: seq<Pair>)
    requires TailPairs(tails, free0, free) && free != [] && tail.pair == free[0]
    ensures TailPairs([tail] + tails, free0, free[1..])
  {
  }

  lemma AllTaken(head: Mdir, tails: seq<Mdir>, free0: seq<Pair>, free: seq<Pair>)
    requires TailPairs(tails, free0, free)
    ensures TailsFrom([head] + tails, free0, free)
  {
  }

  /** The tails hold the pending part of the global state, and nothing is pending any more. */
  predicate TailsPaid(tails: seq<Mdir>, gstate: GState, gdisk0: GState, gdelta0: GState, gdisk: GState,
        gdelta: GState) {
    gdisk == gstate && gdelta == ZERO && Sum(Deltas(tails)) == Pending(gstate, gdisk0, gdelta0)
  }

  /** The first tail takes the pending part, later ones nothing. */
  lemma TailSum(tail: Mdir, tails: seq<Mdir>, gstate: GState, gdisk0: GState, gdelta0: GState, gdisk: GState,
        gdelta: GState)
    requires tail.delta == Masked(Xor(Xor(gdisk, gstate), gdelta))
    requires if tails == [] then gdisk == gdisk0 && gdelta == gdelta0
            else TailsPaid(tails, gstate, gdisk0, gdelta0, gdisk, gdelta)
    ensures TailsPaid([tail] + tails, gstate, gdisk0, gdelta0, gstate, ZERO)
  {
    hide Xor;
    HeadSum(tail, tails);
    XorLaws(gdisk, gstate, ZERO);
    XorLaws(tail.delta, ZERO, ZERO);
    XorLaws(ZERO, tail.delta, ZERO);
    XorLaws(gstate, ZERO, ZERO);
    XorLaws(ZERO, ZERO, ZERO);
    XorLaws(Pending(gstate, gdisk0, gdelta0), ZERO, ZERO);
    assert Deltas([]) == [];
  }

  lemma HeadTakes(head: Mdir, tails: seq<Mdir>, gstate: GState, gdisk0: GState, gdelta0: GState, gdisk: GState,
        gdelta: GState, own: GState)
    requires head.delta == Xor(Masked(Xor(Xor(gdisk, gstate), gdelta)), own)
    requires if tails == [] then gdisk == gdisk0 && gdelta == gdelta0
            else TailsPaid(tails, gstate, gdisk0, gdelta0, gdisk, gdelta)
    ensures Sum(Deltas([head] + tails)) == Xor(Pending(gstate, gdisk0, gdelta0), own)
  {
    hide Xor;
    HeadSum(head, tails);
    XorLaws(gdisk, gstate, ZERO);
    XorLaws(head.delta, ZERO, ZERO);
    XorLaws(ZERO, head.delta, ZERO);
    XorLaws(gstate, ZERO, ZERO);
    XorLaws(ZERO, ZERO, ZERO);
    XorLaws(ZERO, own, ZERO);
    XorLaws(own, ZERO, ZERO);
    assert Deltas([]) == [];
  }

  /** The end of lfs_dir_relocatingcommit: an append if it fits, or a compaction that may split,
      together with whatever of the global state the disk does not have yet. */
  method WritePair(d: Mdir, attrs: seq<Mattr>, fits: bool, cut: (seq<Rec>, seq<Mattr>, nat) -> nat, free0: seq<Pair>,
      gstate: GState, gdisk: GState, gdelta: GState)
    returns (parts: seq<Mdir>, free: seq<Pair>)
    requires GoodCommit(d.log, attrs)
    ensures Rewritten(d, Listing(d.log + Expand(attrs)), parts) && TailsFrom(parts, free0, free)
    ensures Sum(Deltas(parts)) == Xor(Pending(gstate, gdisk, gdelta), d.delta)
  {
    hide GoodDir, Replay, Expand, GoodCommit, Sum, Deltas, Xor, Masked, Listing, CommitLog, TailsOk;
    if !fits {
      parts, free := SplittingCompact(d, attrs, cut, free0, gstate, gdisk, gdelta);
      return;
    }
    var delta := Masked(Xor(Xor(gstate, gdisk), gdelta));
    XorLaws(d.delta, delta, ZERO);
    XorLaws(d.delta, ZERO, ZERO);
    if delta != ZERO {
      delta := Xor(delta, d.delta);
    } else {
      // the newest delta in the log stays the one that counts
      delta := d.delta;
    }
    var next := Mdir(d.pair, CommitLog(d.log, attrs, false), delta, d.split);
    CommitGood(d.log, attrs, false);
    OneSum(next);
    ghost var list := Listing(d.log + Expand(attrs));
    NoTails(list, d.split);
    assert list[|list|..] == [] && [next] + [] == [next] && list + [] == list;
    OneMoreTail(next, [], [], d.split);
    TailsRewrite(d, list, [next]);
    return [next], free0;
  }

  lemma OneSum(d: Mdir)
    ensures Sum(Deltas([d])) == d.delta
  {
    assert Deltas([d]) == [d.delta];
    SumOne(d.delta);
  }

  lemma WroteParts(base: seq<Mdir>, i: nat, parts: seq<Mdir>, list: seq<EntryView>)
    requires i < |base| && GoodDirs(base) && Rewritten(base[i], list, parts) && Distinct(Put(base, i, parts))
    ensures Wrote(base, Put(base, i, parts), i, list) && Written(base, Put(base, i, parts), i) == parts
    ensures GoodDirs(Put(base, i, parts))
  {
    hide GoodDir, Listing, Distinct, Together;
    var after := Put(base, i, parts);
    assert after[i..i + |parts|] == parts;
    forall k | 0 <= k < |after|
      ensures GoodDir(after[k].log)
    {
      if i <= k < i + |parts| {
        assert after[k] == parts[k - i];
      } else if k >= i + |parts| {
        assert after[k] == base[i + 1..][k - i - |parts|];
      }
    }
  }

  lemma PartsApart(base: seq<Mdir>, i: nat, parts: seq<Mdir>, list: seq<EntryView>, free0: seq<Pair>, free: seq<Pair>)
    requires i < |base| && GoodDirs(base) && FreeOk(base, free0)
    requires Rewritten(base[i], list, parts) && TailsFrom(parts, free0, free)
    ensures Distinct(Put(base, i, parts)) && FreeOk(Put(base, i, parts), free)
  {
    hide GoodDir, Distinct, FreeOk, Listing, Together;
    StaysApart(base, i, parts, free0, free);
  }

  /** The list that a drop goes to, and the commit to it that has no attributes of its own. */
  lemma Unlinking(dirs: seq<Mdir>, i: nat, free: seq<Pair>)
    requires i + 1 < |dirs| && GoodDirs(dirs) && FreeOk(dirs, free)
    ensures var base := Unlinked(dirs, i);
            && base == dirs[..i] + [dirs[i].(split := dirs[i + 1].split)] + dirs[i + 2..] && i < |base|
            && base[i].log == dirs[i].log && base[i].delta == dirs[i].delta
            && GoodDirs(base) && FreeOk(base, free) && GoodCommit(base[i].log, [])
                && base[i].log + Expand([]) == base[i].log
  {
    hide GoodDir, FreeOk, GoodCommit, Distinct, Expand;
    UnlinkedApart(dirs, i, free);
    NothingGood(Unlinked(dirs, i)[i].log);
  }

  lemma CommitSettlesAt(before: seq<Mdir>, i: nat, after: seq<Mdir>, list: seq<EntryView>, gstate: GState,
        gdisk: GState, gdelta: GState)
    requires Wrote(before, after, i, list) && Conserved(before, gdisk, gdelta)
    requires Sum(Deltas(Written(before, after, i))) == Xor(Pending(gstate, gdisk, gdelta), before[i].delta)
    ensures Conserved(after, gstate, ZERO)
  {
    hide Conserved, Pending, Rewritten, Sum, Deltas, Xor;
    CommitSettles(before, i, Written(before, after, i), gstate, gdisk, gdelta);
  }

  lemma DropSettlesAt(before: seq<Mdir>, i: nat, after: seq<Mdir>, list: seq<EntryView>, gstate: GState,
        gdisk: GState, gdelta: GState)
    requires i + 1 < |before| && Wrote(Unlinked(before, i), after, i, list) && Conserved(before, gdisk, gdelta)
    requires Sum(Deltas(Written(Unlinked(before, i), after, i))) ==
             Xor(Pending(gstate, gdisk, Xor(gdelta, before[i + 1].delta)), before[i].delta)
    ensures Conserved(after, gstate, ZERO)
  {
    hide Conserved, Pending, Rewritten, Sum, Deltas, Xor;
    DropSettles(before, i, Written(Unlinked(before, i), after, i), gstate, gdisk, gdelta);
  }

  lemma SumShows(dirs: seq<Mdir>, g: GState)
    requires Conserved(dirs, g, ZERO)
    ensures DiskView(dirs) == Directories(View(dirs, g), dirs)
  {
    hide Xor, Sum, Directories, View;
    XorLaws(Sum(Deltas(dirs)), ZERO, ZERO);
    ViewIgnoresSize(dirs, Sum(Deltas(dirs)), g);
  }

  lemma CommitShows(before: seq<Mdir>, after: seq<Mdir>, i: nat, attrs: seq<Mattr>, g: GState)
    requires i < |before| && Committed(before, after, i, attrs) && GoodDirs(after) && Conserved(after, g, ZERO)
    requires if Drops(before, i, attrs) then !HasMove(g) else MoveAway(before, i, g)
    ensures DiskView(after) == Directories(View(before, g)[i := Listing(before[i].log + Expand(attrs))], before)
  {
    hide Conserved, GoodDir, Committed, Drops, MoveAway, HasMove, Directories, View, Listing, Expand;
    CommittedShows(before, after, i, attrs, g);
    SumShows(after, g);
  }

  /** A move out of another pair stays one, wherever that pair is on the list now. */
  lemma MoveStaysOk(before: seq<Mdir>, after: seq<Mdir>, i: nat, attrs: seq<Mattr>, g: GState)
    requires i < |before| && Committed(before, after, i, attrs) && MoveOk(before, g)
    requires if Drops(before, i, attrs) then !HasMove(g) else MoveAway(before, i, g)
    ensures MoveOk(after, g)
  {
    hide Rewritten, Listing, Expand, HasDelete, HasMove;
    if HasMove(g) {
      var j :| 0 <= j < |before| && before[j].pair == Pair(g.pair0, g.pair1) && g.id as nat < |Listing(before[j].log)|;
      assert MoveHere(g, before[j].pair);
      var l := if j < i then j else j + |after| - |before|;
      assert after[l] == before[j];
    }
  }

  /** Blocks to relocate the i-th pair to: no pair but the old one has a block of them. */
  predicate Fresh(dirs: seq<Mdir>, i: nat, pair: Pair, free: seq<Pair>) {
    && (forall j :: 0 <= j < |dirs| && j != i ==> !dirs[j].pair.Shares(pair))
    && forall j :: 0 <= j < |free| ==> !pair.Shares(free[j])
  }

  lemma DropShows(before: seq<Mdir>, i: nat, after: seq<Mdir>, gdisk: GState, g: GState)
    requires i + 1 < |before| && Listing(before[i + 1].log) == []
    requires Conserved(before, gdisk, ZERO) && !HasMove(gdisk) && !HasMove(g)
    requires Wrote(Unlinked(before, i), after, i, Listing(before[i].log)) && GoodDirs(after)
            && Conserved(after, g, ZERO)
    ensures before[i].split ==> DiskView(after) == DiskView(before)
    ensures !before[i].split && !before[i + 1].split ==>
              exists k :: 0 <= k < |DiskView(before)| && DiskView(before)[k] == []
                  && DiskView(after) == RemoveAt(DiskView(before), k)
  {
    hide Listing, GoodDir, Rewritten, Distinct, HasMove, Put, Conserved, Directories;
    var base, v, kept := Unlinked(before, i), Listings(before), Listing(before[i].log);
    SumShows(before, gdisk);
    SumShows(after, g);
    ViewsAre(before, gdisk);
    ViewsAre(before, g);
    ViewUnlinked(before, i, g);
    MoveNotInNew(base, after, i, kept, g);
    RewrittenShows(base, i, kept, Written(base, after, i), g);
    assert View(base, g)[i := kept] == v[..i + 1] + v[i + 2..];
    if before[i].split {
      UnlinkedShows(v, before, i);
    } else if !before[i + 1].split {
      OrphanShows(v, before, i);
    }
  }

  /** The list that the predecessor's commit makes the one on disk. */
  lemma Relinked(dirs: seq<Mdir>, i: nat, attrs: seq<Mattr>, moved: Mdir, free: seq<Pair>, g: GState, g': GState,
        fix: seq<Mattr>)
    requires GoodDirs(dirs) && FreeOk(dirs, free) && 0 < i < |dirs| && GoodCommit(dirs[i].log, attrs) && MoveOk(dirs, g)
    requires moved.log == CommitLog(dirs[i].log, attrs, true) && Fresh(dirs, i, moved.pair, free)
    requires if MoveHere(g, dirs[i - 1].pair) then fix == [Delete(g.id as nat)] else fix == []
    ensures GoodDirs(dirs[i := moved]) && FreeOk(dirs[i := moved], free) && GoodCommit(dirs[i - 1].log, fix)
  {
    hide GoodDir, GoodCommit, Listing, CommitLog, HasMove, Delete;
    CommitGood(dirs[i].log, attrs, true);
    if MoveHere(g, dirs[i - 1].pair) {
      MoveIdOk(dirs, i - 1, g);
      DeleteGood(dirs[i - 1].log, g.id as nat);
    } else {
      NothingGood(dirs[i - 1].log);
    }
    var base := dirs[i := moved];
    forall k, l | 0 <= k < |base| && 0 <= l < |base| && base[k].pair.Shares(base[l].pair)
      ensures k == l
    {
      assert base[l].pair.Shares(base[k].pair);
    }
  }

  lemma MoveIdOk(dirs: seq<Mdir>, i: nat, g: GState)
    requires GoodDirs(dirs) && i < |dirs| && MoveOk(dirs, g) && MoveHere(g, dirs[i].pair)
    ensures dirs[i].pair == Pair(g.pair0, g.pair1) && g.id as nat < |Listing(dirs[i].log)|
  {
    hide GoodDir, Listing, HasMove;
    var j :| 0 <= j < |dirs| && dirs[j].pair == Pair(g.pair0, g.pair1) && g.id as nat < |Listing(dirs[j].log)|;
    assert dirs[j].pair.Shares(dirs[i].pair);
  }

  lemma RelinkedShows(before: seq<Mdir>, i: nat, attrs: seq<Mattr>, moved: Mdir, after: seq<Mdir>, g: GState,
        g': GState, fix: seq<Mattr>, free: seq<Pair>)
    requires 0 < i < |before| && GoodDirs(before) && GoodDirs(after) && GoodCommit(before[i].log, attrs)
    requires MoveAway(before, i, g) && MoveOk(before, g)
    requires moved.log == CommitLog(before[i].log, attrs, true) && moved.split == before[i].split
            && Fresh(before, i, moved.pair, free)
    requires if MoveHere(g, before[i - 1].pair) then fix == [Delete(g.id as nat)] && g' == PrepMove(g, None)
            else fix == [] && g' == g
    requires Wrote(before[i := moved], after, i - 1, Listing(before[i - 1].log + Expand(fix)))
            && Conserved(after, g', ZERO)
    ensures DiskView(after) == Directories(View(before, g)[i := Listing(before[i].log + Expand(attrs))], before)
  {
    hide GoodDir, GoodCommit, Listing, CommitLog, HasMove, Delete, Expand, Rewritten, Conserved, PrepMove, Wrote,
         Group, View, Pieces;
    var base := before[i := moved];
    var list, kept := Listing(before[i].log + Expand(attrs)), Listing(before[i - 1].log + Expand(fix));
    CommitGood(before[i].log, attrs, true);
    SumShows(after, g');
    NothingGood(before[i - 1].log);
    PrepMoveReads(g, None);
    if MoveHere(g, before[i - 1].pair) {
      MoveIdOk(before, i - 1, g);
      DeleteGood(before[i - 1].log, g.id as nat);
    }
    RelinkedViews(before, i, list, moved, kept, g, g', free);
    ShowsWritten(base, after, i - 1, kept, g');
  }

  lemma ShowsWritten(base: seq<Mdir>, after: seq<Mdir>, i: nat, list: seq<EntryView>, g: GState)
    requires Wrote(base, after, i, list) && Distinct(after) && MoveAway(base, i, g)
    ensures Directories(View(after, g), after) == Directories(View(base, g)[i := list], base)
  {
    hide Rewritten, Distinct, MoveHere, HasMove, Group, View, Put;
    MoveNotInNew(base, after, i, list, g);
    RewrittenShows(base, i, list, Written(base, after, i), g);
  }

  /** The pending move is out of a pair other than the relocated one, on neither of its blocks. */
  lemma MoveElsewhere(before: seq<Mdir>, i: nat, pair: Pair, g: GState, free: seq<Pair>)
    requires i < |before| && MoveAway(before, i, g) && Fresh(before, i, pair, free)
    ensures !MoveHere(g, pair) && !MoveHere(g, before[i].pair)
  {
    hide HasMove;
    if HasMove(g) {
      var j :| 0 <= j < |before| && before[j].pair == Pair(g.pair0, g.pair1);
      assert MoveHere(g, before[j].pair);
    }
  }

  lemma RelinkedViews(before: seq<Mdir>, i: nat, list: seq<EntryView>, moved: Mdir, kept: seq<EntryView>, g: GState,
        g': GState, free: seq<Pair>)
    requires 0 < i < |before| && Distinct(before) && MoveAway(before, i, g) && Fresh(before, i, moved.pair, free)
    requires Listing(moved.log) == list && kept == DirView(before[i - 1], g) && moved.split == before[i].split
    requires if MoveHere(g, before[i - 1].pair) then !HasMove(g') && before[i - 1].pair == Pair(g.pair0, g.pair1)
            else g' == g
    ensures MoveAway(before[i := moved], i - 1, g')
    ensures Pieces(View(before[i := moved], g')[i - 1 := kept], before[i := moved]) ==
            Pieces(View(before, g)[i := list], before)
  {
    hide Listing, HasMove, Distinct, Fresh;
    MoveElsewhere(before, i, moved.pair, g, free);
    if MoveHere(g, before[i - 1].pair) {
      OnlyMoveHere(before, i - 1, g);
    } else if HasMove(g) {
      var j :| 0 <= j < |before| && before[j].pair == Pair(g.pair0, g.pair1);
      assert MoveHere(g, before[j].pair);
      assert before[i := moved][j].pair == Pair(g.pair0, g.pair1);
    }
  }

  /** Without a move anywhere, the disk shows the listings. */
  lemma NotMoving(dirs: seq<Mdir>, gdisk: GState, g: GState)
    requires Conserved(dirs, gdisk, ZERO) && !HasMove(gdisk) && !HasMove(g)
    ensures DiskView(dirs) == Directories(Listings(dirs), dirs)
    ensures MoveOk(dirs, gdisk) && MoveOk(dirs, Sum(Deltas(dirs))) && MoveOk(dirs, g)
  {
    hide Sum, Deltas, Directories, Xor, Listing, Masked;
    SumShows(dirs, gdisk);
    ViewsAre(dirs, gdisk);
    XorLaws(Sum(Deltas(dirs)), ZERO, ZERO);
    HasMoveMasked(Sum(Deltas(dirs)), gdisk);
  }

  lemma SumMoveOk(dirs: seq<Mdir>, g: GState)
    requires Conserved(dirs, g, ZERO) && MoveOk(dirs, g)
    ensures MoveOk(dirs, Sum(Deltas(dirs)))
  {
    hide Sum, Deltas, Xor, Listing, Masked, HasMove;
    XorLaws(Sum(Deltas(dirs)), ZERO, ZERO);
    MoveReadsMasked(Sum(Deltas(dirs)), g);
  }

  lemma MoveIsOk(dirs: seq<Mdir>, i: nat, id: bv10, g: GState)
    requires i < |dirs| && Pair(g.pair0, g.pair1) == dirs[i].pair && g.id == id && id as nat < |Listing(dirs[i].log)|
    ensures MoveOk(dirs, g)
  {
  }

  lemma MoveIsHere(dirs: seq<Mdir>, i: nat, g: GState)
    requires i < |dirs| && GoodDirs(dirs) && dirs[i].pair == Pair(g.pair0, g.pair1) && MoveOk(dirs, g) && HasMove(g)
    ensures g.id as nat < |Listing(dirs[i].log)|
  {
    hide GoodDir, Listing;
    var j :| 0 <= j < |dirs| && dirs[j].pair == Pair(g.pair0, g.pair1) && g.id as nat < |Listing(dirs[j].log)|;
    assert dirs[j].pair.Shares(dirs[i].pair);
  }

  /** What formatting writes: the superblock's entry, and a second compaction so that older
      content of the other block does not count. */
  function Formatted(superblock: Attr): Mdir {
    Mdir(Pair(0, 1), CommitLog(CommitLog([], FormatAttrs(superblock), true), [], true), ZERO, false)
  }

  lemma FormattedIs(superblock: Attr)
    requires superblock.typ == 0x201 && superblock.size < SIZE_REMOVED
    ensures var dirs := [Formatted(superblock)];
            && GoodDirs(dirs) && Conserved(dirs, ZERO, ZERO) && !HasMove(ZERO)
            && DiskView(dirs) == [[ViewOf([SUPERBLOCK, superblock])]]
  {
    hide GoodDir, CommitLog, FormatAttrs, Replay, Expand, GoodCommit, ViewOf, Conserved, DiskView;
    var first := CommitLog([], FormatAttrs(superblock), true);
    FormatGood(superblock);
    CommitGood([], FormatAttrs(superblock), true);
    NothingGood(first);
    CommitGood(first, [], true);
    var list := [ViewOf([SUPERBLOCK, superblock])];
    assert Views([[SUPERBLOCK, superblock]]) == list;
    OneDirShows(Formatted(superblock), list);
  }

  lemma OneDirShows(d: Mdir, list: seq<EntryView>)
    requires d.delta == ZERO && Listing(d.log) == list && !d.split
    ensures Conserved([d], ZERO, ZERO) && DiskView([d]) == [list]
  {
    hide Listing;
    OneSum(d);
    XorLaws(ZERO, ZERO, ZERO);
    assert Pieces(View([d], ZERO), [d]) == [Piece(list, false)];
    assert Group([Piece(list, false)]) == [list] + Group([Piece(list, false)][1..]);
  }

  lemma SumStart(dirs: seq<Mdir>)
    ensures Sum(Deltas(dirs)[..0]) == ZERO
  {
  }

  lemma SumNext(dirs: seq<Mdir>, k: nat)
    requires k < |dirs|
    ensures Sum(Deltas(dirs)[..k + 1]) == Xor(Sum(Deltas(dirs)[..k]), dirs[k].delta)
  {
    assert Deltas(dirs)[..k + 1][..k] == Deltas(dirs)[..k];
  }

  /** The top bit of the tag, which says that it is not a tag, or here, that there are orphans. */
  predicate ValidBit(g: GState) {
    g.typ & 0x800 != 0
  }

  lemma ValidBitIs(g: GState)
    ensures ValidBit(g) <==> g.typ >= 0x800
    ensures ValidBit(g.(typ := g.typ | 0x800)) && !ValidBit(g.(typ := g.typ & 0x7ff))
  {
  }

  /** The walk over all pairs of a mount, collecting deltas. */
  method SumUp(dirs: seq<Mdir>) returns (g: GState)
    ensures g == Sum(Deltas(dirs))
  {
    hide Sum, Deltas, Xor;
    SumStart(dirs);
    g := ZERO;
    var k := 0;
    while k < |dirs|
      invariant 0 <= k <= |dirs| && g == Sum(Deltas(dirs)[..k])
    {
      SumNext(dirs, k);
      g := Xor(g, dirs[k].delta);
      k := k + 1;
    }
    assert Deltas(dirs)[..k] == Deltas(dirs);
  }

  function OneMoreOrphan(g: GState): GState {
    g.(size := g.size + 1)
  }

  /** One more orphan changes nothing but the count, which is then not zero unless it overflowed. */
  lemma CountOrphan(g: GState)
    ensures Masked(OneMoreOrphan(g)) == Masked(g)
    ensures (OneMoreOrphan(g).size as nat) == if g.size == 0x3ff then 0 else g.size as nat + 1
  {
  }

  class LittleFs {
    var dirs: seq<Mdir>      // the disk
    var gstate: GState       // the global state operations work on
    var gdisk: GState        // the global state of the last commit
    var gdelta: GState       // deltas taken off the disk but not written back
    var free: seq<Pair>      // the pairs the allocator hands out next
    // whether a commit can be appended, and where an overfull pair is cut
    const fits: (seq<Rec>, seq<Mattr>) -> bool
    const cut: (seq<Rec>, seq<Mattr>, nat) -> nat

    ghost predicate Valid()
      reads this
    {
      GoodDirs(dirs) && Conserved(dirs, gdisk, gdelta) && FreeOk(dirs, free)
    }

    /** A formatted filesystem, mounted: one pair, with the superblock's entry in it. */
    constructor (superblock: Attr, free: seq<Pair>, fits: (seq<Rec>, seq<Mattr>) -> bool,
          cut: (seq<Rec>, seq<Mattr>, nat) -> nat)
      requires superblock.typ == 0x201 && superblock.size < SIZE_REMOVED
      requires FreeOk([Formatted(superblock)], free)
      ensures Valid() && Settled() && dirs == [Formatted(superblock)] && this.free == free
      ensures dirs[0].pair == Pair(0, 1)
      ensures DiskView(dirs) == [[ViewOf([SUPERBLOCK, superblock])]]
    {
      dirs, this.free, this.fits, this.cut := [Formatted(superblock)], free, fits, cut;
      gstate, gdisk, gdelta := ZERO, ZERO, ZERO;
      new;
      FormattedIs(superblock);
    }

    /** Nothing is pending, in RAM or on disk. */
    ghost predicate Settled()
      reads this
    {
      gdelta == ZERO && !HasMove(gdisk) && !HasMove(gstate)
    }

    /** Writes one pair of a list, which then is the list on disk. */
    method WriteAt(base: seq<Mdir>, i: nat, attrs: seq<Mattr>)
      requires i < |base| && GoodDirs(base) && FreeOk(base, free) && GoodCommit(base[i].log, attrs)
      modifies this
      ensures Wrote(base, dirs, i, Listing(base[i].log + Expand(attrs))) && GoodDirs(dirs) && FreeOk(dirs, free)
      ensures Sum(Deltas(Written(base, dirs, i))) == Xor(Pending(old(gstate), old(gdisk), old(gdelta)), base[i].delta)
      ensures gstate == old(gstate) && gdisk == gstate && gdelta == ZERO
    {
      hide GoodDirs, FreeOk, GoodCommit, Rewritten, Wrote, TailsFrom, Distinct, Sum, Deltas, Listing, Expand, Xor,
           Pending;
      var parts;
      ghost var free0 := free;
      parts, free := WritePair(base[i], attrs, fits(base[i].log, attrs), cut, free, gstate, gdisk, gdelta);
      PartsApart(base, i, parts, Listing(base[i].log + Expand(attrs)), free0, free);
      WroteParts(base, i, parts, Listing(base[i].log + Expand(attrs)));
      dirs := base[..i] + parts + base[i + 1..];
      gdisk := gstate;
      gdelta := ZERO;
    }

    /** lfs_dir_commit to one pair: rewritten, split, or dropped when a delete empties it and an
        earlier pair can take its tail. */
    method Commit(i: nat, attrs: seq<Mattr>)
      requires Valid() && i < |dirs| && GoodCommit(dirs[i].log, attrs)
      requires if Drops(dirs, i, attrs) then !HasMove(gstate) else MoveAway(dirs, i, gstate)
      modifies this
      ensures Valid() && gstate == old(gstate) && gdisk == gstate && gdelta == ZERO
      ensures Committed(old(dirs), dirs, i, attrs)
      ensures DiskView(dirs) ==
              Directories(View(old(dirs), gstate)[i := Listing(old(dirs[i].log) + Expand(attrs))], old(dirs))
      ensures MoveOk(old(dirs), gstate) ==> MoveOk(dirs, gstate)
    {
      hide GoodDirs, GoodDir, FreeOk, GoodCommit, Rewritten, Wrote, Distinct, Sum, Deltas, Listing, Expand, Xor,
           Pending, Conserved, Masked, HasDelete, HasMove, MoveAway, Put, Unlinked, Directories, View, MoveOk;
      ghost var before := dirs;
      if Drops(dirs, i, attrs) {
        // the emptied pair is not written again: its delta and tail go to the one before it
        ghost var gdelta0 := gdelta;
        gdelta := Xor(gdelta, dirs[i].delta);
        var base := dirs[..i - 1] + [dirs[i - 1].(split := dirs[i].split)] + dirs[i + 1..];
        Unlinking(dirs, i - 1, free);
        WriteAt(base, i - 1, []);
        DropSettlesAt(before, i - 1, dirs, Listing(before[i - 1].log), gstate, old(gdisk), gdelta0);
      } else {
        WriteAt(dirs, i, attrs);
        CommitSettlesAt(before, i, dirs, Listing(before[i].log + Expand(attrs)), gstate, old(gdisk), old(gdelta));
      }
      CommitShows(before, dirs, i, attrs, gstate);
      if MoveOk(before, gstate) {
        MoveStaysOk(before, dirs, i, attrs, gstate);
      }
    }

    /** lfs_dir_drop: steals the delta of the empty pair after the i-th, and its tail. A pair that
        continues the i-th one's directory goes without a trace; one that is a directory of its own
        is an orphan, and that directory is gone. */
    method Drop(i: nat)
      requires Valid() && Settled() && i + 1 < |dirs| && Listing(dirs[i + 1].log) == []
      modifies this
      ensures Valid() && Settled() && Wrote(Unlinked(old(dirs), i), dirs, i, Listing(old(dirs[i].log)))
      ensures old(dirs[i].split) ==> DiskView(dirs) == old(DiskView(dirs))
      ensures old(!dirs[i].split && !dirs[i + 1].split) ==>
                exists k :: 0 <= k < |old(DiskView(dirs))| && old(DiskView(dirs))[k] == []
                    && DiskView(dirs) == RemoveAt(old(DiskView(dirs)), k)
    {
      hide GoodDirs, GoodDir, FreeOk, GoodCommit, Rewritten, Wrote, Distinct, Sum, Deltas, Listing, Expand, Xor,
           Pending, Conserved, Masked, HasMove, MoveAway, Put, Unlinked, Directories, View, MoveOk;
      ghost var before := dirs;
      gdelta := Xor(gdelta, dirs[i + 1].delta);
      var base := dirs[..i] + [dirs[i].(split := dirs[i + 1].split)] + dirs[i + 2..];
      Unlinking(dirs, i, free);
      WriteAt(base, i, []);
      DropSettlesAt(before, i, dirs, Listing(before[i].log), gstate, old(gdisk), old(gdelta));
      DropShows(before, i, dirs, old(gdisk), gstate);
    }

    /** A commit to a pair that goes to other blocks, cut short after `power` of its commits. The
        compaction writes to blocks that nothing leads to, and leaves the global state alone. The
        commit to the predecessor that links them also carries out a move that is pending there,
        which the relocation would make out of date. */
    method Relocate(i: nat, attrs: seq<Mattr>, pair: Pair, power: nat)
      requires Valid() && 0 < i < |dirs| && GoodCommit(dirs[i].log, attrs) && MoveAway(dirs, i, gstate)
              && MoveOk(dirs, gstate)
      // an assertion of the source: this may not empty the predecessor
      requires MoveHere(gstate, dirs[i - 1].pair) ==> |Listing(dirs[i - 1].log)| > 1
      requires Fresh(dirs, i, pair, free)
      modifies this
      ensures power < 2 ==> dirs == old(dirs) && gstate == old(gstate) && gdisk == old(gdisk)
      ensures power >= 2 ==> Valid() && gdisk == gstate && gdelta == ZERO
      ensures power >= 2 ==>
              gstate == if MoveHere(old(gstate), old(dirs[i - 1].pair)) then PrepMove(old(gstate), None)
              else old(gstate)
      ensures DiskView(dirs) ==
              if power < 2 then old(DiskView(dirs))
              else Directories(View(old(dirs), old(gstate))[i := Listing(old(dirs[i].log) + Expand(attrs))], old(dirs))
    {
      hide GoodDirs, GoodDir, FreeOk, GoodCommit, Wrote, Rewritten, Distinct, Sum, Deltas, Listing, Expand, Xor,
           Pending, Conserved, Masked,
           HasMove, MoveAway, Put, Directories, View, MoveOk, CommitLog, Fresh, Delete, PrepMove;
      if power == 0 {
        return;
      }
      ghost var before, g := dirs, gstate;
      var moved := Mdir(pair, CommitLog(dirs[i].log, attrs, true), Xor(Masked(gdelta), dirs[i].delta), dirs[i].split);
      RelocateSettles(dirs, i, moved, gdisk, gdelta);
      gdelta := ZERO;
      if power == 1 {
        return;
      }
      var fix := [];
      if HasMove(gstate) && Pair(gstate.pair0, gstate.pair1).Shares(dirs[i - 1].pair) {
        fix := [Delete(gstate.id as nat)];
        gstate := PrepMove(gstate, None);
      }
      var base := dirs[i := moved];
      Relinked(dirs, i, attrs, moved, free, g, gstate, fix);
      WriteAt(base, i - 1, fix);
      CommitSettlesAt(base, i - 1, dirs, Listing(base[i - 1].log + Expand(fix)), gstate, old(gdisk), ZERO);
      RelinkedShows(before, i, attrs, moved, dirs, g, gstate, fix, old(free));
    }

    /** lfs_mount_: rebuilds the global state from the disk alone. */
    method Mount()
      modifies this
      ensures dirs == old(dirs) && free == old(free) && gstate == gdisk && gdelta == ZERO
      ensures Masked(gdisk) == Masked(Sum(Deltas(dirs))) && Conserved(dirs, gdisk, gdelta)
      ensures old(Conserved(dirs, gdisk, ZERO)) ==> Masked(gstate) == Masked(old(gdisk))
      ensures var sum := Sum(Deltas(dirs));
              gstate == if ValidBit(sum) then OneMoreOrphan(sum) else sum
    {
      hide Sum, Deltas, Xor, Masked, ValidBit, OneMoreOrphan;
      XorLaws(Sum(Deltas(dirs)), ZERO, ZERO);
      gstate := SumUp(dirs);
      CountOrphan(gstate);
      // the valid bit stands for orphans, whose count is not kept on disk
      if ValidBit(gstate) {
        gstate := OneMoreOrphan(gstate);
      }
      gdisk := gstate;
      gdelta := ZERO;
    }

    /** lfs_rename_ from the point where both paths are resolved, cut short by a power loss
        after `power` commits. The first commit may split the target pair, and the second one drop
        the source pair. */
    method RenameEntry(r: Rename, power: nat)
      requires Valid() && Settled() && r.Valid(Listings(dirs))
      modifies this
      ensures Valid() && gdelta == ZERO && MoveOk(dirs, Sum(Deltas(dirs)))
      ensures DiskView(dirs) == if power == 0 then old(DiskView(dirs)) else old(RenamedDirs(dirs, r))
      ensures power == 0 ==> dirs == old(dirs)
      ensures power > 1 ==> Settled()
    {
      hide GoodDirs, GoodDir, FreeOk, GoodCommit, Distinct, Sum, Deltas, Listing, Expand, Xor, Conserved, Masked,
           RenamedView,
           HasMove, MoveAway, Directories, View, MoveOk, RenameAttrs, RenameAttrsFor, PrepMove, Drops, Committed,
               Delete;
      ghost var before, g := dirs, gstate;
      NotMoving(dirs, gdisk, g);
      var pair := dirs[r.src].pair;
      FirstCommitShows(dirs, r, g);
      PrepMoveReads(g, Some((r.id10, pair)));
      if !r.Samepair() {
        if power == 0 {
          return;
        }
        MoveIsOk(dirs, r.src, r.id10, PrepMove(g, Some((r.id10, pair))));
        gstate := PrepMove(gstate, Some((r.id10, pair)));
      } else if power == 0 {
        return;
      }
      Commit(r.dst, RenameAttrsFor(dirs, r));
      SumMoveOk(dirs, gdisk);
      if r.Samepair() || power == 1 {
        return;
      }
      // the file is at both places; its old entry goes
      CarryOut();
    }

    /** The commit that deletes the moved entry and clears the move, as lfs_fs_demove makes it. */
    method CarryOut()
      requires Valid() && gdelta == ZERO && gstate == gdisk && MoveOk(dirs, gdisk) && HasMove(gdisk)
      modifies this
      ensures Valid() && Settled() && MoveOk(dirs, Sum(Deltas(dirs)))
      ensures DiskView(dirs) == old(DiskView(dirs))
    {
      hide GoodDirs, GoodDir, FreeOk, GoodCommit, Distinct, Sum, Deltas, Listing, Expand, Xor, Conserved, Masked,
           HasMove, MoveAway, Directories, View, PrepMove, Drops, Committed, Delete;
      // only its pair and id are known
      ghost var before, g := dirs, gdisk;
      var i := 0;
      while !(dirs[i].pair == Pair(gdisk.pair0, gdisk.pair1))
        invariant 0 <= i < |dirs| && dirs == before && gdisk == g
        invariant exists j ::
                    && i <= j < |dirs| && dirs[j].pair == Pair(gdisk.pair0, gdisk.pair1)
                    && gdisk.id as nat < |Listing(dirs[j].log)|
        decreases |dirs| - i
      {
        i := i + 1;
      }
      MoveIsHere(dirs, i, g);
      var id := gdisk.id as nat;
      gstate := PrepMove(gstate, None);
      PrepMoveReads(g, None);
      SumShows(dirs, g);
      SecondCommitHides(dirs, i, g, gstate);
      Commit(i, [Delete(id)]);
      NotMoving(dirs, gdisk, gstate);
    }

    /** lfs_fs_demove, run before the first write after a mount. */
    method Demove()
      requires Valid() && gdelta == ZERO && gstate == gdisk && MoveOk(dirs, gdisk)
      modifies this
      ensures Valid() && Settled() && DiskView(dirs) == old(DiskView(dirs))
    {
      hide GoodDirs, FreeOk, Conserved, HasMove, MoveOk, DiskView;
      if HasMove(gdisk) {
        CarryOut();
      }
    }

    /** Power comes back: whatever a rename left on disk is shown unchanged and settled. */
    method Recover()
      requires GoodDirs(dirs) && FreeOk(dirs, free) && MoveOk(dirs, Sum(Deltas(dirs)))
      modifies this
      ensures Valid() && Settled() && DiskView(dirs) == old(DiskView(dirs))
    {
      hide GoodDirs, FreeOk, Conserved, DiskView, Sum, Deltas;
      Mount();
      MoveReadsMasked(Sum(Deltas(dirs)), gdisk);
      Demove();
    }

    /** A rename that is cut short anywhere, and the recovery after it. */
    method RenameAndRecover(r: Rename, power: nat)
      requires Valid() && Settled() && r.Valid(Listings(dirs))
      modifies this
      ensures Valid() && Settled()
      ensures DiskView(dirs) == if power == 0 then old(DiskView(dirs)) else old(RenamedDirs(dirs, r))
    {
      hide GoodDirs, FreeOk, Conserved, DiskView, RenamedDirs, Sum, Deltas, HasMove;
      RenameEntry(r, power);
      Recover();
    }
  }

  lemma HasMoveMasked(g: GState, h: GState)
    requires Masked(g) == Masked(h)
    ensures HasMove(g) == HasMove(h)
  {
    assert HasMove(g) == HasMove(Masked(g)) && HasMove(h) == HasMove(Masked(h));
  }

  lemma MoveReadsMasked(g: GState, h: GState)
    requires Masked(g) == Masked(h)
    ensures HasMove(g) == HasMove(h) && g.id == h.id && g.pair0 == h.pair0 && g.pair1 == h.pair1
  {
    HasMoveMasked(g, h);
  }
}
