/** The global state of a filesystem.

    State that concerns several directories at once (a pending move, the presence of orphans) is
    not stored anywhere: each metadata pair stores a delta, and the global state is the XOR of the
    deltas of all pairs on the tail list. */
module GState {

  /** The tag is kept by its fields: type with the valid bit on top, id and size. */
  datatype GState = GState(typ: bv12, id: bv10, size: bv10, pair0: bv32, pair1: bv32)

  const ZERO := GState(0, 0, 0, 0, 0)

  function Xor(a: GState, b: GState): GState {
    GState(Xor12(a.typ, b.typ), Xor10(a.id, b.id), Xor10(a.size, b.size),
           Xor32(a.pair0, b.pair0), Xor32(a.pair1, b.pair1))
  }

  function Xor10(a: bv10, b: bv10): bv10 { a ^ b }

  function Xor12(a: bv12, b: bv12): bv12 { a ^ b }

  function Xor32(a: bv32, b: bv32): bv32 { a ^ b }

  lemma Laws10(a: bv10, b: bv10, c: bv10)
    ensures Xor10(Xor10(a, b), c) == Xor10(a, Xor10(b, c)) && Xor10(a, b) == Xor10(b, a)
    ensures Xor10(a, a) == 0 && Xor10(a, 0) == a
  {
  }

  lemma Laws12(a: bv12, b: bv12, c: bv12)
    ensures Xor12(Xor12(a, b), c) == Xor12(a, Xor12(b, c)) && Xor12(a, b) == Xor12(b, a)
    ensures Xor12(a, a) == 0 && Xor12(a, 0) == a
  {
  }

  lemma Assoc32(a: bv32, b: bv32, c: bv32)
    ensures Xor32(Xor32(a, b), c) == Xor32(a, Xor32(b, c))
  {
  }

  lemma Comm32(a: bv32, b: bv32)
    ensures Xor32(a, b) == Xor32(b, a)
  {
  }

  lemma Zero32(a: bv32)
    ensures Xor32(a, a) == 0 && Xor32(a, 0) == a
  {
  }

  lemma Laws32(a: bv32, b: bv32, c: bv32)
    ensures Xor32(Xor32(a, b), c) == Xor32(a, Xor32(b, c)) && Xor32(a, b) == Xor32(b, a)
    ensures Xor32(a, a) == 0 && Xor32(a, 0) == a
  {
    hide Xor32;
    Assoc32(a, b, c);
    Comm32(a, b);
    Zero32(a);
  }

  /** The size bits count orphans in RAM and never reach the disk. */
  function Masked(g: GState): GState {
    g.(size := 0)
  }

  predicate HasMove(g: GState) {
    g.typ & 0x700 != 0
  }

  /** A move is pending exactly if one of the three bits below the top one is set. */
  lemma MoveBits(g: GState)
    ensures HasMove(g) <==> (g.typ >> 8) & 7 != 0
  {
  }

  lemma XorLaws(a: GState, b: GState, c: GState)
    ensures Xor(Xor(a, b), c) == Xor(a, Xor(b, c)) && Xor(a, b) == Xor(b, a)
    ensures Xor(a, a) == ZERO && Xor(a, ZERO) == a
    ensures Masked(Xor(a, b)) == Xor(Masked(a), Masked(b)) && Masked(Masked(a)) == Masked(a)
  {
    hide Xor10, Xor12, Xor32;
    Laws12(a.typ, b.typ, c.typ);
    Laws10(a.id, b.id, c.id);
    Laws10(a.size, b.size, c.size);
    Laws10(0, 0, 0);
    Laws32(a.pair0, b.pair0, c.pair0);
    Laws32(a.pair1, b.pair1, c.pair1);
  }

  // ---------------------------------------------------------------- deltas

  /** What mounting computes: the XOR of the deltas, in tail order. */
  function Sum(deltas: seq<GState>): GState {
    if deltas == [] then ZERO else Xor(Sum(deltas[..|deltas| - 1]), deltas[|deltas| - 1])
  }

  lemma {:induction false} SumConcat(a: seq<GState>, b: seq<GState>)
    ensures Sum(a + b) == Xor(Sum(a), Sum(b))
    decreases |b|
  {
    hide Xor;
    if b == [] {
      assert a + b == a;
      XorLaws(Sum(a), ZERO, ZERO);
    } else {
      var n := |b| - 1;
      assert (a + b)[..|a + b| - 1] == a + b[..n];
      SumConcat(a, b[..n]);
      XorLaws(Sum(a), Sum(b[..n]), b[n]);
    }
  }

  lemma SumOne(d: GState)
    ensures Sum([d]) == d
  {
    hide Xor;
    var s := [d];
    assert s[..|s| - 1] == [];
    XorLaws(d, ZERO, ZERO);
    XorLaws(ZERO, d, ZERO);
  }

  /** Replacing the delta at one place changes the sum by the difference. */
  lemma SumUpdate(deltas: seq<GState>, i: nat, d: GState)
    requires i < |deltas|
    ensures Sum(deltas[i := d]) == Xor(Sum(deltas), Xor(deltas[i], d))
  {
    hide Xor;
    SumInsert(deltas[..i] + deltas[i + 1..], i, deltas[i]);
    SumInsert(deltas[..i] + deltas[i + 1..], i, d);
    var rest := deltas[..i] + deltas[i + 1..];
    assert rest[..i] + [deltas[i]] + rest[i..] == deltas;
    assert rest[..i] + [d] + rest[i..] == deltas[i := d];
    Cancel(Sum(rest), deltas[i], d);
  }

  lemma Cancel(s: GState, old_: GState, new_: GState)
    ensures Xor(s, new_) == Xor(Xor(s, old_), Xor(old_, new_))
  {
    hide Xor;
    XorLaws(s, old_, Xor(old_, new_));
    XorLaws(old_, old_, new_);
    XorLaws(old_, ZERO, ZERO);
    XorLaws(ZERO, new_, ZERO);
    XorLaws(new_, ZERO, ZERO);
  }

  lemma SumInsert(deltas: seq<GState>, i: nat, d: GState)
    requires i <= |deltas|
    ensures Sum(deltas[..i] + [d] + deltas[i..]) == Xor(Sum(deltas), d)
  {
    hide Xor, Sum;
    SumConcat(deltas[..i] + [d], deltas[i..]);
    SumConcat(deltas[..i], [d]);
    SumOne(d);
    assert deltas == deltas[..i] + deltas[i..];
    SumConcat(deltas[..i], deltas[i..]);
    XorLaws(Sum(deltas[..i]), d, Sum(deltas[i..]));
    XorLaws(Sum(deltas[..i]), Sum(deltas[i..]), d);
    XorLaws(d, Sum(deltas[i..]), ZERO);
  }
}
