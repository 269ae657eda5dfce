/** Walking the list of all metadata pairs.

    Every walk over the whole filesystem follows tail pointers from the first pair, with Brent's
    detector to notice when the list runs in circles. The module proves that every walk ends within
    three times the length of lead-in and cycle, that it reports corruption exactly when the list is
    cyclic, and that otherwise it visits pairwise different pairs. */
module TailList {
  import opened Basics

  datatype Pair = Pair(a: nat, b: nat)

  predicate IsNull(p: Pair) {
    p.a == BLOCK_NULL || p.b == BLOCK_NULL
  }

  /** One missing block is enough to end the list. */
  lemma NullIs(p: Pair)
    ensures IsNull(p) <==> 0xffff_ffff in {p.a, p.b}
  {
    assert IsNull(p) ==> p.a in {p.a, p.b} && p.b in {p.a, p.b};
  }

  /** lfs_pair_issync: the same two blocks, in either order. */
  predicate IsSync(p: Pair, q: Pair) {
    (p.a == q.a && p.b == q.b) || (p.a == q.b && p.b == q.a)
  }

  /** The blocks in order: what a pair is, whichever block was written last. */
  function Norm(p: Pair): Pair {
    if p.a <= p.b then p else Pair(p.b, p.a)
  }

  lemma SyncIsNorm(p: Pair, q: Pair)
    ensures IsSync(p, q) <==> Norm(p) == Norm(q)
    ensures IsSync(p, q) <==> {p.a, p.b} == {q.a, q.b}
  {
    assert p.a in {p.a, p.b} && p.b in {p.a, p.b} && q.a in {q.a, q.b} && q.b in {q.a, q.b};
  }

  /** The tail pointer of each pair that can be fetched. */
  type Tails = map<Pair, Pair>

  datatype Place = At(pair: Pair) | Ended | Unreadable

  function Follow(tails: Tails, x: Place): Place {
    if !x.At? then x
    else if Norm(x.pair) !in tails then Unreadable
    else if IsNull(tails[Norm(x.pair)]) then Ended
    else At(tails[Norm(x.pair)])
  }

  /** Where the walk is after k steps. */
  function Walk(tails: Tails, k: nat): Place {
    if k == 0 then At(Pair(0, 1)) else Follow(tails, Walk(tails, k - 1))
  }

  /** The list comes back, after `lead` steps, `cycle` steps later. */
  predicate Repeats(tails: Tails, lead: nat, cycle: nat) {
    && cycle > 0 && Walk(tails, lead).At? && Walk(tails, lead + cycle).At?
    && IsSync(Walk(tails, lead).pair, Walk(tails, lead + cycle).pair)
  }

  ghost predicate Cyclic(tails: Tails) {
    exists lead: nat, cycle: nat :: Repeats(tails, lead, cycle)
  }

  lemma {:induction false} AtBefore(tails: Tails, k: nat, n: nat)
    requires k <= n && Walk(tails, n).At?
    ensures Walk(tails, k).At?
    decreases n
  {
    if k < n {
      AtBefore(tails, k, n - 1);
    }
  }

  lemma {:induction false} Periodic(tails: Tails, lead: nat, cycle: nat, k: nat)
    requires Repeats(tails, lead, cycle) && k > 0
    ensures Walk(tails, lead + k) == Walk(tails, lead + cycle + k)
  {
    if k == 1 {
      SyncIsNorm(Walk(tails, lead).pair, Walk(tails, lead + cycle).pair);
    } else {
      Periodic(tails, lead, cycle, k - 1);
    }
  }

  /** A list that comes back once never ends. */
  lemma {:induction false} NeverEnds(tails: Tails, lead: nat, cycle: nat, k: nat)
    requires Repeats(tails, lead, cycle)
    ensures Walk(tails, k).At?
    decreases k
  {
    if k <= lead + cycle {
      AtBefore(tails, k, lead + cycle);
    } else {
      NeverEnds(tails, lead, cycle, k - cycle);
      Periodic(tails, lead, cycle, k - cycle - lead);
    }
  }

  /** From the lead-in on, the list repeats with the cycle's length. */
  lemma ComesBack(tails: Tails, lead: nat, cycle: nat, t: nat)
    requires Repeats(tails, lead, cycle) && t >= lead
    ensures Walk(tails, t).At? && Walk(tails, t + cycle).At?
    ensures IsSync(Walk(tails, t).pair, Walk(tails, t + cycle).pair)
  {
    NeverEnds(tails, lead, cycle, t);
    NeverEnds(tails, lead, cycle, t + cycle);
    if t > lead {
      Periodic(tails, lead, cycle, t - lead);
    }
  }

  // ---------------------------------------------------------------- finitely many pairs

  lemma {:induction false} Pigeonhole(s: seq<Pair>, holes: set<Pair>) returns (i: nat, j: nat)
    requires |s| > |holes| && forall p :: p in s ==> p in holes
    ensures i < j < |s| && s[i] == s[j]
    decreases |s|
  {
    var last := s[|s| - 1];
    var front := s[..|s| - 1];
    if last in front {
      i :| 0 <= i < |front| && front[i] == last;
      j := |s| - 1;
    } else {
      assert last in holes;
      forall p | p in front
        ensures p in holes - {last}
      {
        assert p in s;
      }
      i, j := Pigeonhole(front, holes - {last});
    }
  }

  lemma OneStep(tails: Tails, k: nat)
    ensures Walk(tails, k + 1) == Follow(tails, Walk(tails, k))
    ensures Walk(tails, k + 1).At? && Walk(tails, k).At? ==> Norm(Walk(tails, k).pair) in tails
  {
  }

  /** A walk longer than there are pairs has come back. */
  lemma MustRepeat(tails: Tails, k: nat) returns (lead: nat, cycle: nat)
    requires Walk(tails, k).At? && k > |tails|
    ensures Repeats(tails, lead, cycle) && lead + cycle <= |tails|
  {
    hide Walk, Norm, IsSync;
    var n := |tails|;
    forall i | 0 <= i <= n
      ensures Walk(tails, i).At? && Norm(Walk(tails, i).pair) in tails.Keys
    {
      AtBefore(tails, i, k);
      AtBefore(tails, i + 1, k);
      OneStep(tails, i);
    }
    var s := seq(n + 1, i requires 0 <= i <= n => Norm(Walk(tails, i).pair));
    assert |tails.Keys| == n;
    var i, j := Pigeonhole(s, tails.Keys);
    SyncIsNorm(Walk(tails, i).pair, Walk(tails, j).pair);
    lead, cycle := i, j - i;
  }

  // ---------------------------------------------------------------- the detector

  datatype Error = Ok | Corrupt | FetchFailed

  class Tortoise {
    var pair: Pair
    var i: nat
    var period: nat

    constructor ()
      ensures pair == Pair(BLOCK_NULL, BLOCK_NULL) && i == 1 && period == 1
    {
      pair, i, period := Pair(BLOCK_NULL, BLOCK_NULL), 1, 1;
    }

    /** The detector waits at step t; it moves from t to 2t+2. */
    predicate Waits(tails: Tails, t: nat, k: nat)
      reads this
    {
      if k == 0 then pair == Pair(BLOCK_NULL, BLOCK_NULL) && i == period == 1 && t == 0
      else t < k <= t + period && i == k - t && period == t + 2 && Walk(tails, t) == At(pair)
    }

    /** lfs_tortoise_detectcycles, at step k of the walk: reports exactly whether the walk is back
        where the detector waits. */
    method DetectCycles(tail: Pair, ghost tails: Tails, ghost t: nat, ghost k: nat) returns (err: Error, ghost t': nat)
      requires Walk(tails, k) == At(tail) && !IsNull(tail) && Waits(tails, t, k)
      modifies this
      ensures err == if k > 0 && IsSync(tail, old(pair)) then Corrupt else Ok
      ensures err == Ok ==> Waits(tails, t', k + 1)
      ensures err == Ok ==> t' == if k == 0 then 0 else if k == 2 * t + 2 then k else t
    {
      if IsSync(tail, pair) {
        return Corrupt, t;
      }
      t' := t;
      if i == period {
        pair := tail;
        i := 0;
        period := period * 2;
        t' := k;
      }
      i := i + 1;
      err := Ok;
    }
  }

  /** Where the detector may wait, and how far the walk may have come, without having noticed. */
  ghost predicate InTime(tails: Tails, t: nat, k: nat) {
    forall lead: nat, cycle: nat :: Repeats(tails, lead, cycle) ==> t <= 2 * (lead + cycle) && k <= 3 * (lead + cycle)
  }

  predicate Unnoticed(tails: Tails, t: nat, k: nat) {
    forall j :: t < j < k ==>
        !(Walk(tails, j).At? && Walk(tails, t).At? && IsSync(Walk(tails, j).pair, Walk(tails, t).pair))
  }

  /** One more step without noticing is still in time. */
  lemma StaysInTime(tails: Tails, t: nat, k: nat, t': nat)
    requires Walk(tails, k).At?
            && (if k == 0 then t == t' == 0 else t < k <= 2 * t + 2 && t' == if k == 2 * t + 2 then k else t)
    requires InTime(tails, t, k) && Unnoticed(tails, t, k + 1)
    ensures InTime(tails, t', k + 1)
  {
    forall lead: nat, cycle: nat | Repeats(tails, lead, cycle)
      ensures t' <= 2 * (lead + cycle) && k + 1 <= 3 * (lead + cycle)
    {
      if t >= lead && t + cycle <= k {
        ComesBack(tails, lead, cycle, t);
        assert false;
      }
    }
  }

  lemma Unseen(tails: Tails, t: nat, k: nat, t': nat)
    requires Unnoticed(tails, t, k) && t' == if k == 0 then 0 else if k == 2 * t + 2 then k else t
    requires k == 0 ==> t == 0
    requires k > 0 ==> Walk(tails, k).At? && (Walk(tails, t).At? ==> !IsSync(Walk(tails, k).pair, Walk(tails, t).pair))
    ensures Unnoticed(tails, t, k + 1) && Unnoticed(tails, t', k + 1)
  {
  }

  lemma IsCyclic(tails: Tails, lead: nat, cycle: nat)
    requires Repeats(tails, lead, cycle)
    ensures Cyclic(tails)
  {
  }

  lemma NotCyclic(tails: Tails, n: nat)
    requires !Walk(tails, n).At?
    ensures !Cyclic(tails)
  {
    if Cyclic(tails) {
      var lead: nat, cycle: nat :| Repeats(tails, lead, cycle);
      NeverEnds(tails, lead, cycle, n);
      assert false;
    }
  }

  lemma AllDifferent(tails: Tails, visited: seq<Pair>)
    requires !Cyclic(tails) && forall k :: 0 <= k < |visited| ==> Walk(tails, k) == At(visited[k])
    ensures forall i, j :: 0 <= i < j < |visited| ==> !IsSync(visited[i], visited[j])
  {
    forall i, j | 0 <= i < j < |visited|
      ensures !IsSync(visited[i], visited[j])
    {
      assert !Repeats(tails, i, j - i);
    }
  }

  lemma Acyclic(tails: Tails, k: nat)
    requires Walk(tails, k).At? && !Cyclic(tails)
    ensures k <= |tails|
  {
    if k > |tails| {
      var lead, cycle := MustRepeat(tails, k);
      assert false;
    }
  }

  lemma SoFar(tails: Tails, t: nat, k: nat)
    requires InTime(tails, t, k)
    ensures forall lead: nat, cycle: nat :: Repeats(tails, lead, cycle) ==> k <= 3 * (lead + cycle)
  {
  }

  lemma Start(tails: Tails)
    ensures Walk(tails, 0) == At(Pair(0, 1)) && InTime(tails, 0, 0) && Unnoticed(tails, 0, 0)
  {
  }

  lemma StepsLeft(tails: Tails, t: nat, k: nat)
    requires Walk(tails, k).At? && InTime(tails, t, k)
    ensures k <= 3 * |tails| + 1
  {
    if k > |tails| {
      var lead, cycle := MustRepeat(tails, k);
    }
  }

  /** The walk over all metadata pairs, as mounting and traversing do it. */
  method WalkAll(tails: Tails) returns (err: Error, visited: seq<Pair>, ghost steps: nat)
    ensures err == Corrupt <==> Cyclic(tails)
    ensures forall lead: nat, cycle: nat :: Repeats(tails, lead, cycle) ==> steps <= 3 * (lead + cycle)
    ensures steps <= 3 * |tails| + 1
    ensures |visited| == steps && forall k :: 0 <= k < steps ==> Walk(tails, k) == At(visited[k])
    ensures err == Ok ==> Walk(tails, steps) == Ended
    ensures err == Ok ==> forall i, j :: 0 <= i < j < |visited| ==> !IsSync(visited[i], visited[j])
    ensures err == FetchFailed ==> Walk(tails, steps) == Unreadable
  {
    hide Walk, Cyclic, InTime, Unnoticed, Norm;
    var tortoise := new Tortoise();
    Start(tails);
    var tail := Pair(0, 1);
    visited := [];
    ghost var t: nat := 0;
    while true
      invariant Walk(tails, |visited|) == At(tail) && !IsNull(tail)
      invariant tortoise.Waits(tails, t, |visited|)
      invariant forall k :: 0 <= k < |visited| ==> Walk(tails, k) == At(visited[k])
      invariant InTime(tails, t, |visited|) && Unnoticed(tails, t, |visited|)
      invariant |visited| <= 3 * |tails| + 1
      decreases 3 * |tails| + 1 - |visited|
    {
      ghost var k := |visited|;
      ghost var t';
      err, t' := tortoise.DetectCycles(tail, tails, t, k);
      if err != Ok {
        IsCyclic(tails, t, k - t);
        SoFar(tails, t, k);
        return err, visited, |visited|;
      }
      Unseen(tails, t, k, t');
      StaysInTime(tails, t, k, t');
      OneStep(tails, k);
      visited := visited + [tail];
      // only pairs that can be fetched have a tail
      if Norm(tail) !in tails {
        NotCyclic(tails, k + 1);
        Acyclic(tails, k);
        SoFar(tails, t', k + 1);
        return FetchFailed, visited, |visited|;
      }
      tail := tails[Norm(tail)];
      if IsNull(tail) {
        NotCyclic(tails, k + 1);
        Acyclic(tails, k);
        AllDifferent(tails, visited);
        SoFar(tails, t', k + 1);
        return Ok, visited, |visited|;
      }
      t := t';
      StepsLeft(tails, t, k + 1);
    }
  }
}
