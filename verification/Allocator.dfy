/** The block allocator.

    Free blocks are found by scanning the filesystem into a bitmap that covers a window of blocks,
    and walking a cursor through the window; a counter limits how far the cursor may go between
    two checkpoints. The module proves that a block handed out is neither reachable nor handed out
    since the last checkpoint, over any sequence of allocations, checkpoints, commits and failed
    scans, and that the allocator gives up only once the cursor went round the whole device. */
module Allocator {
  import opened Basics

  /** Offsets into the window do not overflow 32 bits up to this many blocks. */
  const MAX_BLOCKS := 0x8000_0000

  // ---------------------------------------------------------------- arithmetic on the ring

  function Mod(a: nat, n: nat): (r: nat)
    requires n > 0
    ensures r < n
  {
    a % n
  }

  lemma ModSmall(a: nat, n: nat)
    requires n > 0 && a < 2 * n
    ensures Mod(a, n) == if a < n then a else a - n
  {
    if a >= n {
      assert a == n + (a - n);
      assert (a - n) % n == a - n;
      assert (n + (a - n)) % n == (a - n) % n by { AddModulus(a - n, n); }
    }
  }

  lemma AddModulus(a: nat, n: nat)
    requires n > 0 && a < n
    ensures (n + a) % n == a
  {
    var q := (n + a) / n;
    assert n + a == n * q + (n + a) % n;
    assert q == 1;
  }

  /** How far block b lies ahead of the cursor, going up and round. */
  function Ahead(b: nat, start: nat, next: nat, n: nat): (r: int) {
    if b >= start + next then b - start - next
    else if b + n >= start + next then b + n - start - next
    else b + 2 * n - start - next
  }

  /** The block k places into the window. */
  function Place(start: nat, k: nat, n: nat): nat {
    if start + k < n then start + k else start + k - n
  }

  /** The offset lfs_alloc_lookahead computes, in 32-bit arithmetic. */
  function Offset(block: nat, start: nat, n: nat): nat
    requires n > 0 && start < n < WORD && block < WORD
  {
    Mod(if block - start + n < WORD then block - start + n else block - start + n - WORD, n)
  }

  lemma OffsetIs(block: nat, start: nat, n: nat)
    requires block < n && start < n <= MAX_BLOCKS
    ensures Offset(block, start, n) == Ahead(block, start, 0, n)
  {
    ModSmall(block - start + n, n);
  }

  /** The offset is right for every block exactly up to 2^31 blocks; beyond, the sum overflows. */
  lemma OffsetExact(n: nat)
    requires 0 < n < WORD
    ensures (forall block: nat, start: nat :: block < n && start < n ==>
               Offset(block, start, n) == Ahead(block, start, 0, n)) <==> n <= MAX_BLOCKS
  {
    if n <= MAX_BLOCKS {
      forall block: nat, start: nat | block < n && start < n
        ensures Offset(block, start, n) == Ahead(block, start, 0, n)
      {
        OffsetIs(block, start, n);
      }
    } else {
      ModSmall(2 * n - 1 - WORD, n);
      assert Offset(n - 1, 0, n) == 2 * n - 1 - WORD;
      assert Ahead(n - 1, 0, 0, n) == n - 1;
    }
  }

  lemma PlaceAhead(start: nat, k: nat, next: nat, b: nat, n: nat)
    requires start < n && next <= k < n && b < n
    ensures 0 <= Place(start, k, n) < n
    ensures b == Place(start, k, n) <==> Ahead(b, start, next, n) == k - next
  {
  }

  lemma CursorMoved(start: nat, next: nat, n: nat)
    requires start < n && next <= n
    ensures forall b: nat :: b < n ==>
              Ahead(b, Place(start, next, n), 0, n) == Ahead(b, start, next, n) && 0 <= Ahead(b, start, next, n) < n
    ensures 0 <= Place(start, next, n) < n && Place(start, next, n) == if start + next < n then start + next
            else start + next - n
  {
  }

  lemma AheadBounds(start: nat, next: nat, n: nat)
    requires start < n && next <= n
    ensures forall b: nat :: b < n ==> 0 <= Ahead(b, start, next, n) < n
  {
  }

  lemma CursorSteps(start: nat, next: nat, n: nat)
    requires start < n && next < n
    ensures 0 <= Place(start, next, n) < n
    ensures forall b: nat :: b < n ==>
              Ahead(b, start, next + 1, n) == if b == Place(start, next, n) then n - 1 else Ahead(b, start, next, n) - 1
  {
  }

  predicate Within(s: set<nat>, n: nat) {
    forall b :: b in s ==> b < n
  }

  function Elements(s: seq<nat>): set<nat> {
    set b | b in s
  }

  // ---------------------------------------------------------------- the allocator

  datatype Error = None | NoSpace | Io

  class Lookahead {
    const n: nat
    var start: nat
    var size: nat
    var next: nat
    var ckpoint: nat
    const buffer: array<bool>
    // what a traversal of the filesystem reaches, as of the last commit
    ghost var tree: set<nat>
    // what was handed out since the last checkpoint
    ghost var handed: set<nat>
    // what traversals since the last checkpoint reached, or the window still showed at it
    ghost var reached: set<nat>

    /** The counter covers the rest of the window; blocks handed out lie beyond what it allows the
        cursor to reach; a clear bit ahead of the cursor marks an unreachable block. */
    ghost predicate Valid()
      reads this, buffer
    {
      && 0 < n <= MAX_BLOCKS && buffer.Length > 0
      && start < n && next <= size <= buffer.Length && size <= n && size - next <= ckpoint <= n
      && Within(tree, n) && Within(handed, n) && Within(reached, n)
      && (forall b :: b in handed ==> Ahead(b, start, next, n) >= ckpoint)
      && (forall k :: next <= k < size && !buffer[k] ==> Place(start, k, n) !in tree)
      && (forall b: nat :: b < n && Ahead(b, start, next, n) >= ckpoint ==> b in handed || b in reached)
      && (forall k :: next <= k < size && buffer[k] ==> Place(start, k, n) in reached)
    }

    /** lfs_alloc_drop as mounting uses it. */
    constructor (blockCount: nat, lookaheadSize: nat, ghost reachable: set<nat>)
      requires 0 < blockCount <= MAX_BLOCKS && lookaheadSize > 0
      requires Within(reachable, blockCount)
      ensures Valid() && tree == reachable && handed == {} && n == blockCount && fresh(buffer)
    {
      n := blockCount;
      start, size, next, ckpoint := 0, 0, 0, blockCount;
      buffer := new bool[8 * lookaheadSize];
      tree, handed, reached := reachable, {}, {};
    }

    /** The blocks ahead of the cursor that the window shows as in use. */
    ghost function Marked(): set<nat>
      reads this, buffer
      requires size <= buffer.Length
    {
      set k: nat | next <= k < size && buffer[k] :: Place(start, k, n)
    }

    lemma MarkedWithin()
      requires start < n && size <= buffer.Length && size <= n
      ensures Within(Marked(), n)
      ensures forall k :: next <= k < size && buffer[k] ==> Place(start, k, n) in Marked()
    {
      forall k | next <= k < size && buffer[k]
        ensures 0 <= Place(start, k, n) < n
      {
        PlaceAhead(start, k, next, 0, n);
      }
    }

    /** A commit: what becomes reachable was reachable or is in flight. */
    ghost method Commit(reachable: set<nat>)
      requires Valid() && reachable <= tree + handed
      modifies `tree
      ensures Valid() && tree == reachable
    {
      forall k | next <= k < size && !buffer[k]
        ensures Place(start, k, n) !in reachable
      {
        if k < n {
          PlaceAhead(start, k, next, Place(start, k, n), n);
        }
      }
      tree := reachable;
    }

    /** lfs_alloc_ckpoint: whatever was handed out is reachable by now, or given up. */
    method Checkpoint()
      requires Valid()
      modifies `ckpoint, `handed, `reached
      ensures Valid() && ckpoint == n && handed == {} && reached == Marked()
    {
      ckpoint := n;
      handed := {};
      reached := Marked();
      MarkedWithin();
    }

    /** lfs_alloc_drop */
    method Drop()
      requires Valid()
      modifies `size, `next, `ckpoint, `handed, `reached
      ensures Valid() && size == next == 0 && ckpoint == n && handed == {} && reached == {}
    {
      size, next := 0, 0;
      ckpoint := n;
      handed, reached := {}, {};
    }

    /** lfs_alloc_lookahead: marks one block. */
    method Mark(block: nat)
      requires block < n && start < n <= MAX_BLOCKS && size <= buffer.Length && size <= n
      modifies buffer
      ensures forall k :: 0 <= k < size ==> buffer[k] == (old(buffer[k]) || Place(start, k, n) == block)
    {
      OffsetIs(block, start, n);
      var off := Offset(block, start, n);
      if off < size {
        buffer[off] := true;
      }
      forall k | 0 <= k < size
        ensures Place(start, k, n) == block <==> k == off
      {
        PlaceAhead(start, k, 0, block, n);
      }
    }

    /** The mask of a traversal: a bit is set when the block was called back. */
    method Fill(traversal: seq<nat>)
      requires start < n <= MAX_BLOCKS && size <= buffer.Length && size <= n
      requires Within(Elements(traversal), n)
      modifies buffer
      ensures forall k :: 0 <= k < size ==> (buffer[k] <==> Place(start, k, n) in Elements(traversal))
    {
      hide Place;
      forall k | 0 <= k < buffer.Length {
        buffer[k] := false;
      }
      for i := 0 to |traversal|
        invariant forall k :: 0 <= k < size ==> (buffer[k] <==> Place(start, k, n) in traversal[..i])
      {
        assert traversal[i] in Elements(traversal);
        Mark(traversal[i]);
        assert traversal[..i + 1] == traversal[..i] + [traversal[i]];
      }
      assert traversal[..|traversal|] == traversal;
    }

    /** lfs_alloc_scan: moves the window to the cursor and fills it from a traversal, which may
        fail part of the way. */
    method Scan(traversal: seq<nat>, fails: bool) returns (err: Error)
      requires Valid() && next == size && ckpoint > 0
      requires Within(Elements(traversal), n)
      requires !fails ==> Elements(traversal) == tree
      modifies `start, `size, `next, `ckpoint, `handed, `reached, buffer
      ensures Valid() && (err == Io <==> fails) && err in {None, Io}
      ensures err == None ==>
              next == 0 < size && ckpoint == old(ckpoint) && handed == old(handed) && reached == old(reached) + tree
      ensures err == None && old(AllReachable()) ==> AllReachable()
      ensures err == Io ==> size == next == 0 && ckpoint == n && handed == reached == {}
    {
      hide Ahead, Place, Elements;
      ghost var start0: nat, next0: nat := start, next;
      ModSmall(start + next, n);
      start := Mod(start + next, n);
      CursorMoved(start0, next0, n);
      next := 0;
      size := if buffer.Length < ckpoint then buffer.Length else ckpoint;
      Fill(traversal);
      if fails {
        size, next, ckpoint := 0, 0, n;
        handed, reached := {}, {};
        AheadBounds(start, next, n);
        return Io;
      }
      reached := reached + tree;
      err := None;
    }

    /** One step of the cursor, past a block that is in use or being handed out. */
    method Advance(ghost taken: set<nat>)
      requires Valid() && next < size
      requires taken <= {Place(start, next, n)} && (!buffer[next] ==> taken == {Place(start, next, n)})
      modifies `next, `ckpoint, `handed
      ensures Valid() && next == old(next) + 1 && ckpoint == old(ckpoint) - 1 && handed == old(handed) + taken
      ensures old(buffer[next] && AllReachable()) ==> AllReachable()
    {
      hide Ahead, Place;
      CursorSteps(start, next, n);
      next := next + 1;
      ckpoint := ckpoint - 1;
      handed := handed + taken;
    }

    /** The block under the cursor is neither reachable nor handed out. */
    lemma UnderCursor()
      requires Valid() && next < size && !buffer[next]
      ensures Place(start, next, n) == if start + next < n then start + next else start + next - n
      ensures Place(start, next, n) < n
      ensures Place(start, next, n) !in tree && Place(start, next, n) !in handed
    {
      PlaceAhead(start, next, next, Place(start, next, n), n);
    }

    /** Hands out the free block under the cursor, and moves on to the next one the window shows. */
    method Take() returns (block: nat)
      requires Valid() && next < size && !buffer[next]
      modifies `next, `ckpoint, `handed
      ensures Valid() && block < n && block !in tree && block !in old(handed)
      ensures handed == old(handed) + {block} && ckpoint < old(ckpoint)
      ensures next < size ==> !buffer[next]
    {
      hide Ahead, Place, Within;
      UnderCursor();
      ModSmall(start + next, n);
      block := Mod(start + next, n);
      // the cursor moves on past used bits, so that the next call starts at a free one
      while true
        invariant Valid() && next < size
        invariant if buffer[next] then handed == old(handed) + {block} && ckpoint < old(ckpoint)
                  else handed == old(handed) && ckpoint <= old(ckpoint) && block == Place(start, next, n)
        decreases size - next
      {
        Advance(if buffer[next] then {} else {block});
        if next >= size || !buffer[next] {
          return;
        }
      }
    }

    /** lfs_alloc: hands out a block that is neither reachable nor handed out since the last
        checkpoint. It gives up only when the cursor has been everywhere since then, and every block
        was handed out since, found in use by a traversal since, or shown as in use by the window
        then; a failed scan aborts the operation. `fails` says which of the scans fail. */
    method Alloc(traversal: seq<nat>, fails: seq<bool>) returns (err: Error, block: nat)
      requires Valid() && Elements(traversal) == tree
      modifies `start, `size, `next, `ckpoint, `handed, `reached, buffer
      ensures Valid()
      ensures err == None ==> block < n && block !in tree && block !in old(handed)
      ensures err == None ==> handed == old(handed) + {block} && ckpoint < old(ckpoint)
      ensures err == NoSpace ==> ckpoint == 0 && handed == old(handed)
      ensures err == NoSpace ==> forall b: nat :: b < n ==> b in handed || b in reached
      ensures err != Io ==> reached <= old(reached) + tree
      ensures err == Io ==> size == next == 0 && ckpoint == n && handed == {} && true in fails
      ensures old(size == next && ckpoint == n) && err != Io ==>
              (err == NoSpace <==> forall b: nat :: b < n ==> b in tree)
    {
      hide Ahead, Place, AllReachable, Elements, Within;
      AheadBounds(start, next, n);
      if size == next && ckpoint == n {
        NothingPassed();
      }
      ghost var anew := size == next && ckpoint == n;
      var scans := 0;
      while true
        invariant Valid() && handed == old(handed) && ckpoint <= old(ckpoint)
        invariant Elements(traversal) == tree && reached <= old(reached) + tree && (anew ==> AllReachable())
        decreases ckpoint, next == size
      {
        ghost var sum := ckpoint + next;
        // bits that are set cost the counter one each
        while next < size
          modifies `next, `ckpoint, `handed
          invariant Valid() && handed == old(handed) && ckpoint + next == sum && ckpoint <= old(ckpoint)
          invariant anew ==> AllReachable()
          decreases size - next
        {
          if !buffer[next] {
            block := Take();
            return None, block;
          }
          Advance({});
        }
        // the cursor has gone once round the device since the last checkpoint
        if ckpoint <= 0 {
          AllPassed();
          return NoSpace, 0;
        }
        err := Scan(traversal, scans < |fails| && fails[scans]);
        if err != None {
          return err, 0;
        }
        scans := scans + 1;
      }
    }

    lemma NothingPassed()
      requires Valid() && next == size && ckpoint == n
      ensures AllReachable()
    {
      hide Ahead;
      AheadBounds(start, next, n);
    }

    lemma AllPassed()
      requires Valid() && next == size && ckpoint == 0
      ensures forall b: nat :: b < n ==> b in handed || b in reached
      ensures AllReachable() ==> forall b: nat :: b < n ==> b in tree
    {
      hide Ahead;
      AheadBounds(start, next, n);
    }

    /** Every block the cursor passed is reachable, and the window ahead is exact. */
    ghost predicate AllReachable()
      reads this, buffer
      requires next <= size <= buffer.Length
    {
      && (forall b: nat :: b < n && Ahead(b, start, next, n) >= ckpoint ==> b in tree)
      && (forall k :: next <= k < size ==> (buffer[k] <==> Place(start, k, n) in tree))
    }
  }
}
