/** The caches over the block device.

    Programs are collected in a buffer and written out in whole program units; reads go through a
    one-line read cache that the buffer has priority over. The module proves that a read returns
    what was programmed, buffered or not, that flushing loses nothing and writes aligned units,
    and that a validated flush reports success only when the device holds the data. */
module Cache {
  import opened Basics

  // ---------------------------------------------------------------- alignment

  function Times(u: nat, k: int): int {
    u * k
  }

  ghost predicate Aligned(a: int, u: nat) {
    exists k :: a == Times(u, k)
  }

  function AlignDown(a: nat, u: nat): (r: nat)
    requires u > 0
    ensures r <= a < r + u && Aligned(r, u)
  {
    assert a - a % u == Times(u, a / u);
    a - a % u
  }

  function AlignUp(a: nat, u: nat): (r: nat)
    requires u > 0
    ensures a <= r < a + u && Aligned(r, u)
  {
    AlignDown(a + u - 1, u)
  }

  lemma RemainderAligned(a: nat, u: nat)
    requires u > 0 && a % u == 0
    ensures Aligned(a, u)
  {
    assert a == Times(u, a / u);
  }

  lemma AlignedSum(a: int, b: int, u: nat)
    requires Aligned(a, u) && Aligned(b, u)
    ensures Aligned(a + b, u) && Aligned(a - b, u)
  {
    var i, j :| a == Times(u, i) && b == Times(u, j);
    assert a + b == Times(u, i + j) && a - b == Times(u, i - j);
  }

  lemma AlignedTrans(a: int, u: nat, v: nat)
    requires Aligned(u, v) && Aligned(a, u)
    ensures Aligned(a, v)
  {
    var i, j :| a == Times(u, i) && u == Times(v, j);
    assert v * j * i == v * (j * i);
    assert a == Times(v, j * i);
  }

  /** Two aligned values are apart by a unit. */
  lemma AlignedApart(a: int, b: int, u: nat)
    requires u > 0 && Aligned(a, u) && Aligned(b, u) && a < b
    ensures a + u <= b
  {
    var i, j :| a == Times(u, i) && b == Times(u, j);
    TimesApart(u, i, j);
  }

  lemma TimesApart(u: nat, i: int, j: int)
    requires Times(u, i) < Times(u, j)
    ensures Times(u, i) + u <= Times(u, j)
  {
    if j <= i {
      Monotone(u, j, i);
    } else {
      Monotone(u, i + 1, j);
    }
  }

  lemma {:induction false} Monotone(u: nat, i: int, j: int)
    requires i <= j
    ensures u * i <= u * j && u * (i + 1) == u * i + u
    decreases j - i
  {
    if i < j {
      Monotone(u, i + 1, j);
    }
  }

  /** Reading around the cache steps by whole read units up to where the program buffer starts. It
      always makes progress exactly when read units divide program units. */
  lemma BypassProgresses(read: nat, prog: nat)
    requires read > 0 && prog > 0
    ensures (forall off: nat, poff: nat :: Aligned(off, read) && Aligned(poff, prog) && off < poff ==>
               AlignDown(poff - off, read) > 0) <==> Aligned(prog, read)
  {
    hide Aligned, AlignDown;
    if Aligned(prog, read) {
      forall off: nat, poff: nat | Aligned(off, read) && Aligned(poff, prog) && off < poff
        ensures AlignDown(poff - off, read) > 0
      {
        AlignedTrans(poff, prog, read);
        AlignedApart(off, poff, read);
      }
    } else {
      var off := AlignDown(prog, read);
      UnitAligned(prog);
      assert AlignDown(prog - off, read) == 0 by {
        if AlignDown(prog - off, read) > 0 {
          ZeroAligned(read);
          AlignedApart(0, AlignDown(prog - off, read), read);
        }
      }
    }
  }

  /** A configuration that initialization accepts, and a read in front of buffered data that asks
      the device for nothing: read units of 16, program units of 24, the buffer at offset 24, a
      read at offset 16. */
  lemma BypassStuck()
    ensures var (read, prog, cache, block, poff, off, size) := (16, 24, 48, 144, 24, 16, 32);
            && cache % read == 0 && cache % prog == 0 && block % cache == 0 && block >= 128
            && poff % prog == 0 && off % read == 0 && off < poff && size >= read && off + size <= block
            && AlignDown(Min(size, poff - off), read) == 0
  {
  }

  lemma UnitAligned(u: nat)
    requires u > 0
    ensures Aligned(u, u)
  {
    assert u == Times(u, 1);
  }

  lemma ZeroAligned(u: nat)
    requires u > 0
    ensures Aligned(0, u)
  {
    assert 0 == Times(u, 0);
  }

  // ---------------------------------------------------------------- cache lines

  datatype Config = Config(readSize: nat, progSize: nat, cacheSize: nat, blockSize: nat, blockCount: nat)

  /** What lfs_init demands, and that read units divide program units. */
  ghost predicate ValidConfig(c: Config) {
    && c.readSize > 0 && c.progSize > 0 && c.cacheSize > 0 && c.blockSize > 0 && c.blockCount < BLOCK_NULL - 1
    && Aligned(c.cacheSize, c.readSize) && Aligned(c.cacheSize, c.progSize) && Aligned(c.blockSize, c.cacheSize)
  }

  datatype Line = Line(block: nat, off: nat, size: nat, buffer: seq<Byte>)

  predicate Hit(l: Line, b: nat, i: nat) {
    l.block == b && l.off <= i < l.off + l.size
  }

  predicate LineOk(c: Config, l: Line) {
    |l.buffer| == c.cacheSize && (l.block != BLOCK_NULL ==>
      l.block < c.blockCount && l.size <= c.cacheSize && l.off + l.size <= c.blockSize)
  }

  /** Block contents, and which bytes were programmed since their block was erased. */
  predicate Shape(c: Config, disk: seq<seq<Byte>>, live: seq<seq<bool>>) {
    && |disk| == |live| == c.blockCount
    && forall b :: 0 <= b < c.blockCount ==> |disk[b]| == |live[b]| == c.blockSize
  }

  /** Whether a byte was programmed, and to what, with a program buffer on top of the device. */
  predicate Known(live: seq<seq<bool>>, p: Line, b: nat, i: nat)
    requires b < |live| && i < |live[b]|
  {
    Hit(p, b, i) || live[b][i]
  }

  function Shown(disk: seq<seq<Byte>>, p: Line, b: nat, i: nat): Byte
    requires b < |disk| && i < |disk[b]|
  {
    if Hit(p, b, i) && i - p.off < |p.buffer| then p.buffer[i - p.off] else disk[b][i]
  }

  /** A read may return anything for bytes not programmed, else it returns what was programmed. */
  predicate Serves(disk: seq<seq<Byte>>, live: seq<seq<bool>>, p: Line, b: nat, off: nat, data: seq<Byte>)
    requires b < |disk| == |live| && off + |data| <= |disk[b]| == |live[b]|
  {
    forall i :: off <= i < off + |data| ==> Known(live, p, b, i) ==> data[i - off] == Shown(disk, p, b, i)
  }

  lemma ServesMore(disk: seq<seq<Byte>>, live: seq<seq<bool>>, p: Line, b: nat, off: nat, data: seq<Byte>,
        more: seq<Byte>)
    requires b < |disk| == |live| && off + |data| + |more| <= |disk[b]| == |live[b]|
    requires Serves(disk, live, p, b, off, data) && Serves(disk, live, p, b, off + |data|, more)
    ensures Serves(disk, live, p, b, off, data + more)
  {
    hide Known, Shown;
  }

  /** A read cache holds what is on the device, wherever something was programmed. */
  predicate InSync(c: Config, disk: seq<seq<Byte>>, live: seq<seq<bool>>, r: Line)
    requires Shape(c, disk, live) && LineOk(c, r)
  {
    r.block != BLOCK_NULL ==>
      forall i :: r.off <= i < r.off + r.size ==> live[r.block][i] ==> r.buffer[i - r.off] == disk[r.block][i]
  }

  /** The buffer is not in the way of the next bytes. */
  predicate Clear(p: Line, b: nat, off: nat, n: nat) {
    forall i :: off <= i < off + n ==> !Hit(p, b, i)
  }

  lemma FromBuffer(c: Config, disk: seq<seq<Byte>>, live: seq<seq<bool>>, p: Line, b: nat, off: nat, n: nat)
    requires Shape(c, disk, live) && LineOk(c, p) && b < c.blockCount < BLOCK_NULL && Hit(p, b, off)
            && n <= p.size - (off - p.off)
    ensures Serves(disk, live, p, b, off, p.buffer[off - p.off..off - p.off + n])
  {
  }

  lemma FromCache(c: Config, disk: seq<seq<Byte>>, live: seq<seq<bool>>, p: Line, r: Line, b: nat, off: nat, n: nat)
    requires Shape(c, disk, live) && LineOk(c, r) && b < c.blockCount < BLOCK_NULL && InSync(c, disk, live, r)
    requires Hit(r, b, off) && n <= r.size - (off - r.off) && Clear(p, b, off, n)
    ensures Serves(disk, live, p, b, off, r.buffer[off - r.off..off - r.off + n])
  {
  }

  lemma FromDevice(c: Config, disk: seq<seq<Byte>>, live: seq<seq<bool>>, p: Line, b: nat, off: nat, n: nat)
    requires Shape(c, disk, live) && b < c.blockCount && off + n <= c.blockSize && Clear(p, b, off, n)
    ensures Serves(disk, live, p, b, off, disk[b][off..off + n])
  {
  }

  datatype Error = None | Corrupt

  const NO_LINE := Line(BLOCK_NULL, 0, 0, [])

  /** A read that does not go around the cache right up to buffered data, unless read units divide
      program units: all reads without the buffer or of other blocks, and all reads that are shorter
      than their hint or than a read unit. */
  ghost predicate Steps(c: Config, p: Line, hint: nat, block: nat, size: nat) {
    p == NO_LINE || p.block != block || Aligned(c.progSize, c.readSize) || size < hint || size < c.readSize
  }

  /** The part of lfs_bd_read that loads the read cache. */
  method Load(c: Config, disk: seq<seq<Byte>>, ghost live: seq<seq<bool>>, r0: Line, block: nat, off: nat, hint: nat)
    returns (r: Line)
    requires ValidConfig(c) && Shape(c, disk, live) && LineOk(c, r0)
    requires block < c.blockCount && off < c.blockSize && hint > 0
    ensures LineOk(c, r) && InSync(c, disk, live, r) && Hit(r, block, off) && Aligned(r.off, c.readSize)
  {
    hide Aligned;
    var roff := AlignDown(off, c.readSize);
    UnitBounds(c);
    var size := Min(Min(AlignUp(off + hint, c.readSize), c.blockSize) - roff, c.cacheSize);
    r := Line(block, roff, size, disk[block][roff..roff + size] + r0.buffer[size..]);
  }

  lemma UnitBounds(c: Config)
    requires ValidConfig(c)
    ensures c.readSize <= c.cacheSize && c.progSize <= c.cacheSize
  {
    hide Aligned;
    ZeroAligned(c.readSize);
    ZeroAligned(c.progSize);
    AlignedApart(0, c.cacheSize, c.readSize);
    AlignedApart(0, c.cacheSize, c.progSize);
  }

  /** The next bytes of a read, as many as one source has: the program buffer first, then the read
      cache, then the device, if the read is long and aligned enough to go around the cache. Nothing
      when the read cache must be loaded. */
  method NextPart(c: Config, disk: seq<seq<Byte>>, ghost live: seq<seq<bool>>, p: Line, r: Line, hint: nat,
      block: nat, off: nat, size: nat)
    returns (part: seq<Byte>)
    requires ValidConfig(c) && Shape(c, disk, live) && LineOk(c, r)
    requires p == NO_LINE || (LineOk(c, p) && Aligned(p.off, c.progSize))
    requires r.block != BLOCK_NULL ==> Aligned(r.off, c.readSize)
    requires r.block == block ==> InSync(c, disk, live, r)
    requires block < c.blockCount && off + size <= c.blockSize && size > 0 && Steps(c, p, hint, block, size)
    ensures |part| <= size && Serves(disk, live, p, block, off, part)
    ensures part == [] ==> !Hit(r, block, off)
  {
    hide Aligned, Known, Shown, Serves, InSync, AlignDown;
    var diff := size;
    if p.block == block && off < p.off + p.size {
      if off >= p.off {
        // these bytes are buffered
        diff := Min(diff, p.size - (off - p.off));
        FromBuffer(c, disk, live, p, block, off, diff);
        return p.buffer[off - p.off..off - p.off + diff];
      }
      // stop short of the buffered bytes
      diff := Min(diff, p.off - off);
    }
    if block == r.block && off < r.off + r.size {
      if off >= r.off {
        // these bytes are cached, and not buffered
        diff := Min(diff, r.size - (off - r.off));
        FromCache(c, disk, live, p, r, block, off, diff);
        return r.buffer[off - r.off..off - r.off + diff];
      }
      // stop short of the cached bytes
      diff := Min(diff, r.off - off);
    }
    if size >= hint && off % c.readSize == 0 && size >= c.readSize {
      // long and aligned: straight from the device, in whole read units
      RemainderAligned(off, c.readSize);
      BypassSteps(c, off, size, diff, p.off, r.off);
      diff := AlignDown(diff, c.readSize);
      FromDevice(c, disk, live, p, block, off, diff);
      return disk[block][off..off + diff];
    }
    ServesNone(disk, live, p, block, off);
    part := [];
  }

  /** lfs_bd_read, with a program buffer (or NO_LINE) on top. `stale` says that the read cache may
      hold old data of its block. */
  method BdRead(c: Config, disk: seq<seq<Byte>>, ghost live: seq<seq<bool>>, p: Line, r0: Line, ghost stale: bool,
      hint: nat, block: nat, off0: nat, size0: nat)
    returns (err: Error, data: seq<Byte>, r: Line, ghost stale': bool)
    requires ValidConfig(c) && Shape(c, disk, live) && LineOk(c, r0) && hint > 0
    requires p == NO_LINE || (LineOk(c, p) && Aligned(p.off, c.progSize))
    requires r0.block != BLOCK_NULL ==> Aligned(r0.off, c.readSize)
    requires if stale then r0.block != block else InSync(c, disk, live, r0)
    requires Steps(c, p, hint, block, size0)
    ensures err == Corrupt <==> off0 + size0 > c.blockSize || block >= c.blockCount
    ensures LineOk(c, r) && (r.block != BLOCK_NULL ==> Aligned(r.off, c.readSize))
    ensures if stale' then stale && r == r0 else InSync(c, disk, live, r)
    ensures err == None ==> |data| == size0 && Serves(disk, live, p, block, off0, data)
  {
    hide Aligned, Known, Shown, Serves, InSync, AlignDown;
    r, data, stale' := r0, [], stale;
    if off0 + size0 > c.blockSize || block >= c.blockCount {
      return Corrupt, [], r, stale';
    }
    var off: nat, size: nat := off0, size0;
    ServesNone(disk, live, p, block, off0);
    while size > 0
      invariant off == off0 + |data| && |data| + size == size0
      invariant LineOk(c, r) && (r.block != BLOCK_NULL ==> Aligned(r.off, c.readSize))
      invariant if stale' then stale && r == r0 else InSync(c, disk, live, r)
      invariant Serves(disk, live, p, block, off0, data)
      decreases size, !Hit(r, block, off)
    {
      var part := NextPart(c, disk, live, p, r, hint, block, off, size);
      if part != [] {
        ServesMore(disk, live, p, block, off0, data, part);
        data, off, size := data + part, off + |part|, size - |part|;
        continue;
      }
      // a new cache line, for the next round to read from
      r := Load(c, disk, live, r, block, off, hint);
      stale' := false;
    }
    err := None;
  }

  /** A step around the cache is at least one unit. */
  lemma BypassSteps(c: Config, off: nat, size: nat, diff: nat, poff: nat, roff: nat)
    requires ValidConfig(c) && size >= c.readSize && Aligned(off, c.readSize) && diff > 0
    requires diff == size || (diff == poff - off && Aligned(poff, c.progSize) && Aligned(c.progSize, c.readSize))
            || (diff == roff - off && Aligned(roff, c.readSize))
    ensures AlignDown(diff, c.readSize) > 0
  {
    hide Aligned, AlignDown;
    var u := c.readSize;
    if diff == size {
      if AlignDown(diff, u) == 0 {
        assert false;
      }
    } else {
      if diff == poff - off && Aligned(poff, c.progSize) && Aligned(c.progSize, c.readSize) {
        AlignedTrans(poff, c.progSize, u);
        AlignedSum(poff, off, u);
      } else {
        AlignedSum(roff, off, u);
      }
      ZeroAligned(u);
      AlignedApart(0, diff, u);
    }
  }

  lemma ServesNone(disk: seq<seq<Byte>>, live: seq<seq<bool>>, p: Line, b: nat, off: nat)
    requires b < |disk| == |live| && off <= |disk[b]| == |live[b]|
    ensures Serves(disk, live, p, b, off, [])
  {
  }

  // ---------------------------------------------------------------- comparison

  datatype Order = LT | EQ | GT

  function Memcmp(a: seq<Byte>, b: seq<Byte>): Order
    requires |a| == |b|
  {
    if a == [] then EQ
    else if a[0] < b[0] then LT
    else if a[0] > b[0] then GT
    else Memcmp(a[1..], b[1..])
  }

  lemma {:induction false} MemcmpConcat(a: seq<Byte>, b: seq<Byte>, a': seq<Byte>, b': seq<Byte>)
    requires |a| == |b| && |a'| == |b'|
    ensures Memcmp(a + a', b + b') == if Memcmp(a, b) == EQ then Memcmp(a', b') else Memcmp(a, b)
  {
    if a == [] {
      assert a + a' == a' && b + b' == b';
    } else {
      assert (a + a')[1..] == a[1..] + a' && (b + b')[1..] == b[1..] + b';
      MemcmpConcat(a[1..], b[1..], a', b');
    }
  }

  lemma {:induction false} MemcmpEqual(a: seq<Byte>, b: seq<Byte>)
    requires |a| == |b|
    ensures Memcmp(a, b) == EQ <==> a == b
  {
    if a != [] {
      assert a == [a[0]] + a[1..] && b == [b[0]] + b[1..];
      MemcmpEqual(a[1..], b[1..]);
    }
  }

  /** The first byte that differs decides. */
  lemma {:induction false} MemcmpIs(a: seq<Byte>, b: seq<Byte>)
    requires |a| == |b|
    ensures Memcmp(a, b) == LT <==> exists k: nat :: k < |a| && a[..k] == b[..k] && a[k] < b[k]
    ensures Memcmp(a, b) == GT <==> exists k: nat :: k < |a| && a[..k] == b[..k] && a[k] > b[k]
    decreases |a|
  {
    if a != [] {
      MemcmpIs(a[1..], b[1..]);
      assert a[..0] == b[..0];
      forall k: nat | k + 1 < |a|
        ensures a[..k + 1] == b[..k + 1] <==> a[0] == b[0] && a[1..][..k] == b[1..][..k]
      {
        FirstAndRest(a, b, k);
      }
      forall k: nat | 0 < k < |a| && a[..k] == b[..k]
        ensures a[0] == b[0] && a[1..][..k - 1] == b[1..][..k - 1] && a[1..][k - 1] == a[k] && b[1..][k - 1] == b[k]
      {
        FirstAndRest(a, b, k - 1);
      }
    }
  }

  lemma FirstAndRest(a: seq<Byte>, b: seq<Byte>, k: nat)
    requires |a| == |b| && k + 1 < |a|
    ensures a[..k + 1] == b[..k + 1] <==> a[0] == b[0] && a[1..][..k] == b[1..][..k]
  {
    assert a[..k + 1] == [a[0]] + a[1..][..k] && b[..k + 1] == [b[0]] + b[1..][..k];
  }

  /** The bytes a read sees, when all of them were programmed. */
  function Seen(disk: seq<seq<Byte>>, p: Line, b: nat, off: nat, n: nat): (r: seq<Byte>)
    requires b < |disk| && off + n <= |disk[b]|
    ensures |r| == n
  {
    seq<Byte>(n, i requires 0 <= i < n => Shown(disk, p, b, off + i))
  }

  predicate AllKnown(live: seq<seq<bool>>, p: Line, b: nat, off: nat, n: nat)
    requires b < |live| && off + n <= |live[b]|
  {
    forall i :: off <= i < off + n ==> Known(live, p, b, i)
  }

  lemma ServedSeen(disk: seq<seq<Byte>>, live: seq<seq<bool>>, p: Line, b: nat, off: nat, n: nat, i: nat,
        data: seq<Byte>)
    requires b < |disk| == |live| && off + n <= |disk[b]| == |live[b]| && AllKnown(live, p, b, off, n)
    requires i + |data| <= n && Serves(disk, live, p, b, off + i, data)
    ensures data == Seen(disk, p, b, off, n)[i..i + |data|]
  {
    hide Known, Shown;
  }

  /** lfs_bd_cmp: compares programmed bytes with a buffer, at most eight at a time. */
  method BdCmp(c: Config, disk: seq<seq<Byte>>, ghost live: seq<seq<bool>>, p: Line, r0: Line, ghost stale: bool,
      hint: nat, block: nat, off: nat, buffer: seq<Byte>)
    returns (order: Order, r: Line, ghost stale': bool)
    requires ValidConfig(c) && Shape(c, disk, live) && LineOk(c, r0) && hint >= |buffer|
    requires p == NO_LINE || (LineOk(c, p) && Aligned(p.off, c.progSize))
    requires r0.block != BLOCK_NULL ==> Aligned(r0.off, c.readSize)
    requires if stale then r0.block != block else InSync(c, disk, live, r0)
    requires block < c.blockCount && off + |buffer| <= c.blockSize && AllKnown(live, p, block, off, |buffer|)
    requires p == NO_LINE || Aligned(c.progSize, c.readSize) || 8 < c.readSize
    ensures LineOk(c, r) && (r.block != BLOCK_NULL ==> Aligned(r.off, c.readSize))
    ensures if stale' then stale && r == r0 else InSync(c, disk, live, r)
    ensures order == Memcmp(Seen(disk, p, block, off, |buffer|), buffer)
  {
    hide Aligned, Known, Shown, Serves, InSync, AllKnown, Seen, Memcmp;
    r, stale' := r0, stale;
    var i: nat := 0;
    ghost var seen := Seen(disk, p, block, off, |buffer|);
    MemcmpEqual(seen[..0], buffer[..0]);
    while i < |buffer|
      invariant i <= |buffer| && LineOk(c, r) && (r.block != BLOCK_NULL ==> Aligned(r.off, c.readSize))
      invariant if stale' then stale && r == r0 else InSync(c, disk, live, r)
      invariant Memcmp(seen[..i], buffer[..i]) == EQ
    {
      var diff := Min(|buffer| - i, 8);
      var err, dat;
      err, dat, r, stale' := BdRead(c, disk, live, p, r, stale', hint - i, block, off + i, diff);
      ServedSeen(disk, live, p, block, off, |buffer|, i, dat);
      assert seen[..i] + seen[i..i + diff] == seen[..i + diff]
          && buffer[..i] + buffer[i..i + diff] == buffer[..i + diff];
      MemcmpConcat(seen[..i], buffer[..i], dat, buffer[i..i + diff]);
      if Memcmp(dat, buffer[i..i + diff]) != EQ {
        order := Memcmp(dat, buffer[i..i + diff]);
        assert seen[..i + diff] + seen[i + diff..] == seen && buffer[..i + diff] + buffer[i + diff..] == buffer;
        MemcmpConcat(seen[..i + diff], buffer[..i + diff], seen[i + diff..], buffer[i + diff..]);
        return;
      }
      i := i + diff;
    }
    assert seen[..i] == seen && buffer[..i] == buffer;
    order := EQ;
  }

  // ---------------------------------------------------------------- programming

  /** The program buffer starts on a unit and covers erased bytes. */
  ghost predicate BufferOk(c: Config, live: seq<seq<bool>>, p: Line)
    requires ValidConfig(c) && |live| == c.blockCount && forall b :: 0 <= b < |live| ==> |live[b]| == c.blockSize
  {
    && LineOk(c, p) && Aligned(p.off, c.progSize)
    && (p.block != BLOCK_NULL ==> Erased(live, p.block, p.off, p.off + AlignUp(p.size, c.progSize)))
  }

  /** Nothing was programmed between two offsets since the block was erased. */
  predicate Erased(live: seq<seq<bool>>, b: nat, lo: nat, hi: nat)
    requires b < |live|
  {
    forall i :: lo <= i < hi && i < |live[b]| ==> !live[b][i]
  }

  function DiskProg(disk: seq<seq<Byte>>, b: nat, off: nat, data: seq<Byte>): seq<seq<Byte>>
    requires b < |disk| && off + |data| <= |disk[b]|
  {
    disk[b := disk[b][..off] + data + disk[b][off + |data|..]]
  }

  function LiveProg(live: seq<seq<bool>>, b: nat, off: nat, n: nat): seq<seq<bool>>
    requires b < |live| && off + n <= |live[b]|
  {
    live[b := live[b][..off] + seq(n, _ => true) + live[b][off + n..]]
  }

  /** A device with a program buffer on top, as a reader sees it. */
  datatype View = View(disk: seq<seq<Byte>>, live: seq<seq<bool>>, buffer: Line)

  ghost predicate SameByte(v: View, w: View, b: nat, i: nat)
    requires b < |v.disk| == |v.live| && i < |v.disk[b]| == |v.live[b]|
    requires b < |w.disk| == |w.live| && i < |w.disk[b]| == |w.live[b]|
  {
    Known(v.live, v.buffer, b, i) ==>
      Known(w.live, w.buffer, b, i) && Shown(w.disk, w.buffer, b, i) == Shown(v.disk, v.buffer, b, i)
  }

  ghost predicate HasByte(v: View, b: nat, i: nat, x: Byte)
    requires b < |v.disk| == |v.live| && i < |v.disk[b]| == |v.live[b]|
  {
    Known(v.live, v.buffer, b, i) && Shown(v.disk, v.buffer, b, i) == x
  }

  ghost predicate ByteProgrammed(c: Config, v: View, w: View, b: nat, i: nat, block: nat, off: nat, data: seq<Byte>)
    requires Shape(c, v.disk, v.live) && Shape(c, w.disk, w.live) && b < c.blockCount && i < c.blockSize
  {
    if b == block && off <= i < off + |data| then HasByte(w, b, i, data[i - off]) else SameByte(v, w, b, i)
  }

  /** From one view to the next, data was programmed at one place and everything else that was
      programmed stayed. */
  ghost predicate Programmed(c: Config, v: View, w: View, block: nat, off: nat, data: seq<Byte>) {
    && Shape(c, v.disk, v.live) && Shape(c, w.disk, w.live)
    && forall b: nat, i: nat :: b < c.blockCount && i < c.blockSize ==> ByteProgrammed(c, v, w, b, i, block, off, data)
  }

  /** What a read returns after data was programmed, whether it is still buffered or not. */
  lemma ReadsBack(c: Config, v: View, w: View, block: nat, off: nat, data: seq<Byte>, got: seq<Byte>)
    requires Programmed(c, v, w, block, off, data) && block < c.blockCount && off + |data| <= c.blockSize
    requires |got| == |data| && Serves(w.disk, w.live, w.buffer, block, off, got)
    ensures got == data
  {
    hide Known, Shown;
    forall i | 0 <= i < |data|
      ensures got[i] == data[i]
    {
      assert ByteProgrammed(c, v, w, block, off + i, block, off, data);
    }
  }

  lemma ProgrammedTwice(c: Config, u: View, v: View, w: View, block: nat, off: nat, data: seq<Byte>, more: seq<Byte>)
    requires Programmed(c, u, v, block, off, data) && Programmed(c, v, w, block, off + |data|, more)
    ensures Programmed(c, u, w, block, off, data + more)
  {
    hide Known, Shown;
    forall b: nat, i: nat | b < c.blockCount && i < c.blockSize
      ensures ByteProgrammed(c, u, w, b, i, block, off, data + more)
    {
      assert ByteProgrammed(c, u, v, b, i, block, off, data);
      assert ByteProgrammed(c, v, w, b, i, block, off + |data|, more);
    }
  }

  lemma ProgrammedNothing(c: Config, v: View, block: nat, off: nat)
    requires Shape(c, v.disk, v.live)
    ensures Programmed(c, v, v, block, off, [])
  {
  }

  /** Writing out the buffer changes nothing a reader can see. */
  lemma FlushKeeps(c: Config, disk: seq<seq<Byte>>, live: seq<seq<bool>>, p: Line, blank: Line, block: nat, off: nat)
    requires ValidConfig(c) && Shape(c, disk, live) && BufferOk(c, live, p) && p.block != BLOCK_NULL
    requires blank.block == BLOCK_NULL
    requires var n := AlignUp(p.size, c.progSize); n <= c.cacheSize && p.off + n <= c.blockSize
    ensures var n := AlignUp(p.size, c.progSize);
            var d, l := DiskProg(disk, p.block, p.off, p.buffer[..n]), LiveProg(live, p.block, p.off, n);
            Shape(c, d, l) && Programmed(c, View(disk, live, p), View(d, l, blank), block, off, [])
  {
    hide Aligned, AlignUp;
  }

  lemma FlushFits(c: Config, p: Line)
    requires ValidConfig(c) && LineOk(c, p) && Aligned(p.off, c.progSize) && p.block != BLOCK_NULL
    ensures AlignUp(p.size, c.progSize) <= c.cacheSize && p.off + AlignUp(p.size, c.progSize) <= c.blockSize
  {
    hide Aligned, AlignUp;
    var u, n := c.progSize, AlignUp(p.size, c.progSize);
    if n > c.cacheSize {
      AlignedApart(c.cacheSize, n, u);
    }
    AlignedTrans(c.blockSize, c.cacheSize, u);
    AlignedSum(p.off, n, u);
    if p.off + n > c.blockSize {
      AlignedApart(c.blockSize, p.off + n, u);
    }
  }

  lemma AlignUpShift(a: nat, x: nat, u: nat)
    requires u > 0 && Aligned(a, u)
    ensures AlignUp(a + x, u) == a + AlignUp(x, u)
  {
    hide Aligned, AlignUp;
    var l, r := AlignUp(a + x, u), a + AlignUp(x, u);
    AlignedSum(a, AlignUp(x, u), u);
    if l < r {
      AlignedApart(l, r, u);
    } else if r < l {
      AlignedApart(r, l, u);
    }
  }

  lemma AlignUpMonotone(a: nat, b: nat, u: nat)
    requires u > 0 && a <= b
    ensures AlignUp(a, u) <= AlignUp(b, u)
  {
    hide Aligned, AlignUp;
    if AlignUp(b, u) < AlignUp(a, u) {
      AlignedApart(AlignUp(b, u), AlignUp(a, u), u);
    }
  }

  // ---------------------------------------------------------------- flushing

  /** What a program operation leaves on the device: as many bytes as given, on a good block the
      bytes given. */
  type Store = (nat, nat, seq<Byte>) -> seq<Byte>

  ghost predicate StoreOk(store: Store) {
    forall b, o, d :: |store(b, o, d)| == |d|
  }

  ghost predicate Faithful(store: Store) {
    forall b, o, d :: store(b, o, d) == d
  }

  /** The read cache is a line of its own, in step with the device unless marked stale. */
  ghost predicate CacheOk(c: Config, disk: seq<seq<Byte>>, live: seq<seq<bool>>, r: Line, stale: bool)
    requires Shape(c, disk, live)
  {
    && LineOk(c, r) && (r.block != BLOCK_NULL ==> Aligned(r.off, c.readSize))
    && (!stale ==> InSync(c, disk, live, r))
  }

  lemma ProgInSync(c: Config, disk: seq<seq<Byte>>, live: seq<seq<bool>>, r: Line, b: nat, off: nat, data: seq<Byte>)
    requires Shape(c, disk, live) && LineOk(c, r) && InSync(c, disk, live, r)
    requires b < c.blockCount && off + |data| <= c.blockSize
    ensures Shape(c, DiskProg(disk, b, off, data), LiveProg(live, b, off, |data|))
    ensures r.block != b ==> InSync(c, DiskProg(disk, b, off, data), LiveProg(live, b, off, |data|), r)
  {
  }

  lemma ProgShape(c: Config, disk: seq<seq<Byte>>, live: seq<seq<bool>>, b: nat, off: nat, data: seq<Byte>)
    requires Shape(c, disk, live) && b < c.blockCount && off + |data| <= c.blockSize
    ensures Shape(c, DiskProg(disk, b, off, data), LiveProg(live, b, off, |data|))
    ensures AllKnown(LiveProg(live, b, off, |data|), NO_LINE, b, off, |data|)
    ensures Seen(DiskProg(disk, b, off, data), NO_LINE, b, off, |data|) == data
  {
    var after := DiskProg(disk, b, off, data);
    var seen := Seen(after, NO_LINE, b, off, |data|);
    forall i | 0 <= i < |data|
      ensures seen[i] == data[i]
    {
      assert seen[i] == Shown(after, NO_LINE, b, off + i) == after[b][off + i];
      assert after[b] == disk[b][..off] + data + disk[b][off + |data|..];
    }
  }

  /** lfs_bd_flush: writes the buffer out in whole units, and reads it back if asked to. */
  method BdFlush(c: Config, store: Store, disk0: seq<seq<Byte>>, ghost live0: seq<seq<bool>>, p0: Line, r0: Line,
      ghost stale0: bool, validate: bool)
    returns (err: Error, disk: seq<seq<Byte>>, ghost live: seq<seq<bool>>, p: Line, r: Line, ghost stale: bool)
    requires ValidConfig(c) && StoreOk(store) && Shape(c, disk0, live0) && BufferOk(c, live0, p0)
    requires CacheOk(c, disk0, live0, r0, stale0)
    ensures Shape(c, disk, live) && CacheOk(c, disk, live, r, stale) && LineOk(c, p)
    ensures p0.block == BLOCK_NULL ==>
            err == None && disk == disk0 && live == live0 && p == p0 && r == r0 && stale == stale0
    ensures p0.block != BLOCK_NULL ==>
              var n := AlignUp(p0.size, c.progSize);
              && n <= c.cacheSize && p0.off + n <= c.blockSize && Aligned(p0.off, c.progSize) && Aligned(n, c.progSize)
              && var data := p0.buffer[..n];
                 var landed := store(p0.block, p0.off, data);
              && disk == DiskProg(disk0, p0.block, p0.off, landed) && live == LiveProg(live0, p0.block, p0.off, n)
              && (err == Corrupt <==> validate && landed != data)
    ensures err == Corrupt ==> validate && !Faithful(store)
    ensures if err == Corrupt then p == p0 else p.block == BLOCK_NULL && BufferOk(c, live, p)
    ensures err == None && (validate || Faithful(store)) ==>
              Programmed(c, View(disk0, live0, p0), View(disk, live, p), 0, 0, [])
    ensures if validate && p0.block != BLOCK_NULL then !stale else stale ==> stale0 || r0.block == p0.block
    ensures !validate ==> r == r0
  {
    hide Aligned, AlignUp, Shown, Known, InSync, Programmed, DiskProg, LiveProg, Seen, AllKnown, Erased, Memcmp;
    disk, live, p, r, stale, err := disk0, live0, p0, r0, stale0, None;
    if p.block != BLOCK_NULL {
      var diff := AlignUp(p.size, c.progSize);
      FlushFits(c, p);
      var data := p.buffer[..diff];
      ghost var landed := store(p.block, p.off, data);
      FlushKeeps(c, disk0, live0, p0, p0.(block := BLOCK_NULL, buffer := seq(c.cacheSize, _ => 0xff)), 0, 0);
      ProgShape(c, disk0, live0, p.block, p.off, landed);
      disk := DiskProg(disk, p.block, p.off, store(p.block, p.off, data));
      live := LiveProg(live, p.block, p.off, diff);
      if !stale0 {
        ProgInSync(c, disk0, live0, r, p.block, p.off, landed);
      }
      stale := stale0 || r.block == p.block;
      if validate {
        // validation reads the device again, with the read cache dropped
        r := r.(block := BLOCK_NULL);
        NullInSync(c, disk, live, r);
        var order;
        order, r, stale := BdCmp(c, disk, live, NO_LINE, r, false, diff, p.block, p.off, data);
        MemcmpEqual(landed, data);
        if order != EQ {
          assert store(p.block, p.off, data) != data;
          return Corrupt, disk, live, p, r, stale;
        }
      }
      p := p.(block := BLOCK_NULL, buffer := seq(c.cacheSize, _ => 0xff));
    } else {
      ProgrammedNothing(c, View(disk0, live0, p0), 0, 0);
    }
  }

  lemma NullInSync(c: Config, disk: seq<seq<Byte>>, live: seq<seq<bool>>, r: Line)
    requires Shape(c, disk, live) && LineOk(c, r) && r.block == BLOCK_NULL
    ensures InSync(c, disk, live, r)
  {
  }

  // ---------------------------------------------------------------- buffered programs

  /** Where the next byte of contiguous programs goes: behind (or into) what the buffer holds, or
      at the start of a unit of some block. */
  ghost predicate Contiguous(c: Config, p: Line, block: nat, off: nat) {
    if p.block == BLOCK_NULL then Aligned(off, c.progSize)
    else p.block == block && p.off <= off <= p.off + p.size && p.size < c.cacheSize
  }

  function Put(p: Line, off: nat, data: seq<Byte>): Line
    requires p.off <= off && off - p.off + |data| <= |p.buffer|
  {
    var end := off - p.off + |data|;
    p.(buffer := p.buffer[..off - p.off] + data + p.buffer[end..], size := if p.size < end then end else p.size)
  }

  /** Copying bytes into the buffer programs them, for a reader. */
  lemma PutPrograms(c: Config, disk: seq<seq<Byte>>, live: seq<seq<bool>>, p: Line, off: nat, data: seq<Byte>)
    requires ValidConfig(c) && Shape(c, disk, live) && BufferOk(c, live, p) && p.block != BLOCK_NULL
    requires p.off <= off <= p.off + p.size && off - p.off + |data| <= c.cacheSize && off + |data| <= c.blockSize
    requires Erased(live, p.block, off, AlignUp(off + |data|, c.progSize))
    ensures BufferOk(c, live, Put(p, off, data))
    ensures Programmed(c, View(disk, live, p), View(disk, live, Put(p, off, data)), p.block, off, data)
  {
    hide Aligned, AlignUp;
    AlignUpShift(p.off, Put(p, off, data).size, c.progSize);
    AlignUpShift(p.off, p.size, c.progSize);
  }

  lemma AlignUpAligned(a: nat, u: nat)
    requires u > 0 && Aligned(a, u)
    ensures AlignUp(a, u) == a
  {
    hide Aligned, AlignUp;
    if a < AlignUp(a, u) {
      AlignedApart(a, AlignUp(a, u), u);
    }
  }

  /** An empty buffer at the start of a unit shows the device. */
  lemma PreparedShows(c: Config, disk: seq<seq<Byte>>, live: seq<seq<bool>>, p: Line, block: nat, off: nat)
    requires ValidConfig(c) && Shape(c, disk, live) && LineOk(c, p) && p.block == BLOCK_NULL && Aligned(off, c.progSize)
    requires block < c.blockCount && off <= c.blockSize
    ensures var q := Line(block, off, 0, p.buffer);
            BufferOk(c, live, q) && Programmed(c, View(disk, live, p), View(disk, live, q), block, off, [])
  {
    ZeroAligned(c.progSize);
    AlignUpAligned(0, c.progSize);
  }

  lemma ErasedPart(live: seq<seq<bool>>, b: nat, off: nat, n: nat, m: nat, u: nat)
    requires b < |live| && u > 0 && n <= m && Erased(live, b, off, AlignUp(off + m, u))
    ensures Erased(live, b, off, AlignUp(off + n, u)) && Erased(live, b, off + n, AlignUp(off + m, u))
  {
    hide AlignUp;
    AlignUpMonotone(off + n, off + m, u);
  }

  lemma ErasedLater(live: seq<seq<bool>>, b: nat, lo: nat, lo': nat, hi: nat)
    requires b < |live| && lo <= lo' && Erased(live, b, lo, hi)
    ensures Erased(live, b, lo', hi)
  {
  }

  lemma ProgrammedEmpty(c: Config, v: View, w: View, block: nat, off: nat, block': nat, off': nat)
    requires Programmed(c, v, w, block, off, [])
    ensures Programmed(c, v, w, block', off', [])
  {
    hide Known, Shown, SameByte;
    forall b: nat, i: nat | b < c.blockCount && i < c.blockSize
      ensures ByteProgrammed(c, v, w, b, i, block', off', [])
    {
      assert ByteProgrammed(c, v, w, b, i, block, off, []);
    }
  }

  /** Writing out a full buffer leaves the block erased behind it, at the start of a unit. */
  lemma FullFlush(c: Config, live: seq<seq<bool>>, p: Line, hi: nat)
    requires ValidConfig(c) && LineOk(c, p) && p.block < |live| && p.block != BLOCK_NULL && p.size == c.cacheSize
    requires |live[p.block]| == c.blockSize && Aligned(p.off, c.progSize)
    requires Erased(live, p.block, p.off + p.size, hi)
    ensures AlignUp(p.size, c.progSize) == p.size && Aligned(p.off + p.size, c.progSize)
    ensures Erased(LiveProg(live, p.block, p.off, p.size), p.block, p.off + p.size, hi)
  {
    AlignUpAligned(c.cacheSize, c.progSize);
    AlignedSum(p.off, p.size, c.progSize);
  }

  /** One round of lfs_bd_prog: prepares the buffer if need be, fills it, and writes it out when it
      is full. */
  method ProgSome(c: Config, store: Store, disk0: seq<seq<Byte>>, ghost live0: seq<seq<bool>>, p0: Line, r0: Line,
      ghost stale0: bool, validate: bool, block: nat, off: nat, data: seq<Byte>)
    returns (err: Error, n: nat, disk: seq<seq<Byte>>, ghost live: seq<seq<bool>>, p: Line, r: Line, ghost stale: bool)
    requires ValidConfig(c) && StoreOk(store) && Shape(c, disk0, live0) && BufferOk(c, live0, p0)
    requires CacheOk(c, disk0, live0, r0, stale0)
    requires block < c.blockCount && off + |data| <= c.blockSize && |data| > 0 && Contiguous(c, p0, block, off)
    requires Erased(live0, block, off, AlignUp(off + |data|, c.progSize))
    ensures Shape(c, disk, live) && CacheOk(c, disk, live, r, stale) && LineOk(c, p)
    ensures err == Corrupt ==> validate && !Faithful(store)
    ensures err == None ==> BufferOk(c, live, p) && 0 < n <= |data| && Contiguous(c, p, block, off + n)
    ensures err == None ==> Erased(live, block, off + n, AlignUp(off + |data|, c.progSize))
    ensures err == None && (validate || Faithful(store)) ==>
              Programmed(c, View(disk0, live0, p0), View(disk, live, p), block, off, data[..n])
    ensures err == None && Erased(live0, block, off, c.blockSize) ==> Erased(live, block, off + n, c.blockSize)
    ensures if validate then stale ==> stale0 && r == r0 else r == r0 && (stale ==> stale0 || r.block == block)
  {
    hide Aligned, AlignUp, Shown, Known, InSync, Programmed, DiskProg, LiveProg, Erased;
    ghost var hi := AlignUp(off + |data|, c.progSize);
    p := p0;
    if p.block == BLOCK_NULL {
      // the buffer starts over at this place
      p := Line(block, off, 0, p.buffer);
      PreparedShows(c, disk0, live0, p0, block, off);
      UnitBounds(c);
    } else {
      ProgrammedNothing(c, View(disk0, live0, p0), block, off);
    }
    ghost var v1 := View(disk0, live0, p);
    n := Min(|data|, c.cacheSize - (off - p.off));
    ErasedPart(live0, block, off, n, |data|, c.progSize);
    PutPrograms(c, disk0, live0, p, off, data[..n]);
    p := Put(p, off, data[..n]);
    ghost var p2 := p;
    ProgrammedTwice(c, View(disk0, live0, p0), v1, View(disk0, live0, p2), block, off, [], data[..n]);
    assert [] + data[..n] == data[..n];
    err, disk, live, r, stale := None, disk0, live0, r0, stale0;
    if p.size < c.cacheSize && Erased(live0, block, off, c.blockSize) {
      ErasedLater(live0, block, off, off + n, c.blockSize);
    }
    if p.size == c.cacheSize {
      // a full buffer never waits for the next call
      FullFlush(c, live0, p, hi);
      if Erased(live0, block, off, c.blockSize) {
        ErasedLater(live0, block, off, off + n, c.blockSize);
        FullFlush(c, live0, p, c.blockSize);
      }
      err, disk, live, p, r, stale := BdFlush(c, store, disk, live, p, r, stale, validate);
      if err == None && (validate || Faithful(store)) {
        ProgrammedEmpty(c, View(disk0, live0, p2), View(disk, live, p), 0, 0, block, off + n);
        ProgrammedTwice(c, View(disk0, live0, p0), View(disk0, live0, p2), View(disk, live, p), block, off, data[..n],
            []);
        assert data[..n] + [] == data[..n];
      }
    }
  }

  /** The block device behind its caches. */
  class Device {
    const c: Config
    const store: Store
    var disk: seq<seq<Byte>>
    ghost var live: seq<seq<bool>>
    var pcache: Line
    var rcache: Line
    // the read cache may be behind the device, after a flush that was not validated
    ghost var stale: bool

    /** All but what the program buffer promises. */
    ghost predicate Sound()
      reads this
    {
      && ValidConfig(c) && StoreOk(store) && Shape(c, disk, live) && LineOk(c, pcache)
          && CacheOk(c, disk, live, rcache, stale)
    }

    ghost predicate Valid()
      reads this
    {
      Sound() && BufferOk(c, live, pcache)
    }

    ghost function Seen(): View
      reads this
    {
      View(disk, live, pcache)
    }

    /** lfs_bd_prog: a reader sees the data where it was programmed and everything else as before,
        whatever was flushed on the way. */
    method Prog(validate: bool, block: nat, off: nat, data: seq<Byte>) returns (err: Error)
      requires Valid() && block < c.blockCount && off + |data| <= c.blockSize && Contiguous(c, pcache, block, off)
      requires Erased(live, block, off, AlignUp(off + |data|, c.progSize))
      modifies this
      ensures Sound() && (err == Corrupt ==> validate && !Faithful(store))
      ensures err == None ==> Valid() && Contiguous(c, pcache, block, off + |data|)
      ensures err == None && (validate || Faithful(store)) ==> Programmed(c, old(Seen()), Seen(), block, off, data)
      ensures err == None && old(Erased(live, block, off, c.blockSize)) ==>
              Erased(live, block, off + |data|, c.blockSize)
      ensures if validate then stale ==> old(stale) && rcache == old(rcache) else rcache == old(rcache)
      ensures stale ==> old(stale) || rcache.block == block
    {
      hide Aligned, AlignUp, Shown, Known, InSync, Programmed, Erased, Contiguous, BufferOk, CacheOk, LineOk;
      ghost var v0, hi := Seen(), AlignUp(off + |data|, c.progSize);
      ProgrammedNothing(c, v0, block, off);
      var n: nat := 0;
      while n < |data|
        invariant n <= |data| && Valid() && Contiguous(c, pcache, block, off + n)
        invariant Erased(live, block, off + n, hi)
        invariant old(Erased(live, block, off, c.blockSize)) ==> Erased(live, block, off + n, c.blockSize)
        invariant validate || Faithful(store) ==> Programmed(c, v0, Seen(), block, off, data[..n])
        invariant if validate then stale ==> old(stale) && rcache == old(rcache) else rcache == old(rcache)
        invariant stale ==> old(stale) || rcache.block == block
      {
        ghost var v1 := Seen();
        var diff;
        err, diff, disk, live, pcache, rcache, stale :=
          ProgSome(c, store, disk, live, pcache, rcache, stale, validate, block, off + n, data[n..]);
        if err != None {
          return;
        }
        if validate || Faithful(store) {
          ProgrammedTwice(c, v0, v1, Seen(), block, off, data[..n], data[n..][..diff]);
          assert data[..n] + data[n..][..diff] == data[..n + diff];
        }
        n := n + diff;
      }
      assert data[..n] == data;
      err := None;
    }

    /** lfs_bd_flush */
    method Flush(validate: bool) returns (err: Error)
      requires Valid()
      modifies this
      ensures Sound() && (err == Corrupt ==> validate && !Faithful(store) && pcache == old(pcache))
      ensures err == None ==> Valid() && pcache.block == BLOCK_NULL
      ensures err == None && (validate || Faithful(store)) ==> Programmed(c, old(Seen()), Seen(), 0, 0, [])
    {
      hide Aligned, AlignUp, Shown, Known, InSync, Programmed, Erased, DiskProg, LiveProg, Shape, LineOk, CacheOk,
           BufferOk;
      err, disk, live, pcache, rcache, stale := BdFlush(c, store, disk, live, pcache, rcache, stale, validate);
    }

    /** lfs_bd_sync: nothing buffered, and the read cache is not behind the device. */
    method Sync(validate: bool) returns (err: Error)
      requires Valid()
      modifies this
      ensures Sound() && (err == Corrupt ==> validate && !Faithful(store))
      ensures err == None ==> Valid() && pcache.block == BLOCK_NULL && !stale
      ensures err == None && (validate || Faithful(store)) ==> Programmed(c, old(Seen()), Seen(), 0, 0, [])
    {
      hide Aligned, AlignUp, Shown, Known, InSync, Programmed, Erased, DiskProg, LiveProg, BufferOk;
      rcache := rcache.(block := BLOCK_NULL);
      NullInSync(c, disk, live, rcache);
      stale := false;
      err, disk, live, pcache, rcache, stale := BdFlush(c, store, disk, live, pcache, rcache, stale, validate);
    }

    /** lfs_bd_erase: the block holds anything, and the caches are not told. */
    method Erase(block: nat, fill: seq<Byte>)
      requires Valid() && block < c.blockCount && |fill| == c.blockSize
      modifies this
      ensures Valid() && pcache == old(pcache) && rcache == old(rcache) && stale == old(stale)
      ensures disk == old(disk)[block := fill] && Erased(live, block, 0, c.blockSize)
      ensures forall b :: 0 <= b < c.blockCount && b != block ==> live[b] == old(live)[b]
    {
      hide Aligned, AlignUp;
      disk := disk[block := fill];
      live := live[block := seq(c.blockSize, _ => false)];
    }

    /** lfs_bd_read, through the program buffer or past it. */
    method Read(buffered: bool, hint: nat, block: nat, off: nat, size: nat) returns (err: Error, data: seq<Byte>)
      requires Valid() && hint > 0 && (stale ==> rcache.block != block)
      requires buffered ==> Steps(c, pcache, hint, block, size)
      modifies `rcache, `stale
      ensures Valid() && (stale ==> old(stale))
      ensures err == Corrupt <==> off + size > c.blockSize || block >= c.blockCount
      ensures err == None ==>
              |data| == size && Serves(disk, live, if buffered then pcache else NO_LINE, block, off, data)
    {
      hide Aligned, AlignUp, Shown, Known, InSync, Serves;
      err, data, rcache, stale :=
        BdRead(c, disk, live, if buffered then pcache else NO_LINE, rcache, stale, hint, block, off, size);
    }

    /** lfs_cache_drop, of the program buffer. */
    method DropBuffer()
      requires Sound() && Aligned(pcache.off, c.progSize)
      modifies `pcache
      ensures Valid() && pcache.block == BLOCK_NULL
    {
      pcache := pcache.(block := BLOCK_NULL);
    }
  }
}
