/** Saving and loading memory over the bus.

    SAVEMEM receives bytes one by one and writes them to a file in chunks of the response buffer;
    LOADMEM sends a file back through the same buffer. The module proves the bounds of the buffer,
    that every byte received is in the file, the buffer or still to come, that exactly one final
    status is sent, and that what was saved is loaded again. */
module MemStream {
  import opened Basics

  const STATUS_OK: Byte := 0x00
  const STATUS_ERR: Byte := 0xff
  const STATUS_NO_FILE: Byte := 0x02

  const BUF_SIZE := 4096
  const MAX_LENGTH := 65535

  function Frame(status: Byte): seq<Byte> {
    [status, 0, 0]
  }

  /** The files once one of them is opened for writing: a new one exists from then on, without
      contents. */
  function Touched(files: map<string, seq<Byte>>, name: string): map<string, seq<Byte>> {
    if name in files then files else files[name := []]
  }

  datatype State = Idle | Saving | Loading

  datatype Open = Opened | NoEntry | Failed

  /** When a save writes its buffer out: it is full, or everything was received. */
  predicate WritePoint(k: nat, n: nat) {
    0 < k <= n && (k % 4096 == 0 || k == n)
  }

  function Low(n: nat): Byte {
    n % 0x100
  }

  function High(n: nat): Byte
    requires n <= MAX_LENGTH
  {
    n / 0x100
  }

  lemma LowHigh(n: nat)
    requires n <= MAX_LENGTH
    ensures Low(n) == n % 0x100 && High(n) == n / 0x100
  {
  }

  function Max0(n: int): nat {
    if n > 0 then n else 0
  }

  /** What one read puts into the buffer. */
  function Chunk(file: seq<Byte>, at: nat, got: int, want: nat): seq<Byte>
    requires at + got <= |file|
  {
    if got > 0 then file[at..at + got] else seq(want, _ => 0)
  }

  ghost predicate ReadsFit(file: seq<Byte>, read: (nat, nat) -> int) {
    forall p: nat, w: nat :: p <= |file| ==> read(p, w) <= w && p + read(p, w) <= |file|
  }

  lemma ReadFits(file: seq<Byte>, read: (nat, nat) -> int, at: nat, want: nat)
    requires at <= |file| && ReadsFit(file, read)
    ensures read(at, want) <= want && at + read(at, want) <= |file|
  {
  }

  /** The next `n` bytes that are sent, from a position in the file. */
  ghost function Sent(file: seq<Byte>, read: (nat, nat) -> int, at: nat, n: nat): seq<Byte>
    requires at <= |file| && ReadsFit(file, read)
    decreases n
  {
    if n == 0 then [] else
    var want := Min(n, BUF_SIZE);
    var got := read(at, want);
    Chunk(file, at, got, want) + Sent(file, read, at + Max0(got), n - if got > 0 then got else want)
  }

  lemma SentMore(file: seq<Byte>, read: (nat, nat) -> int, at: nat, n: nat)
    requires at <= |file| && ReadsFit(file, read) && n > 0
    ensures var want := Min(n, BUF_SIZE);
            var got := read(at, want);
            var took := if got > 0 then got else want;
            && at + Max0(got) <= |file| && took <= n && |Chunk(file, at, got, want)| == took
            && Sent(file, read, at, n) == Chunk(file, at, got, want) + Sent(file, read, at + Max0(got), n - took)
  {
  }

  /** One byte more: what was sent and buffered, with what is still to come, stays the same. */
  lemma SentStep(file: seq<Byte>, read: (nat, nat) -> int, at: nat, sent: seq<Byte>, n: nat, at': nat, sent': seq<Byte>,
      refills: bool)
    requires at <= |file| && ReadsFit(file, read) && (refills ==> n > 0)
    requires var want := Min(n, BUF_SIZE);
             if refills then at' == at + Max0(read(at, want)) && sent' == sent + Chunk(file, at, read(at, want), want)
             else at' == at && sent' == sent
    ensures at' <= |file| && 0 <= n - (|sent'| - |sent|)
    ensures sent' + Sent(file, read, at', n - (|sent'| - |sent|)) == sent + Sent(file, read, at, n)
  {
    hide Sent, Chunk, ReadsFit;
    if refills {
      SentMore(file, read, at, n);
    }
  }

  lemma SentNone(file: seq<Byte>, read: (nat, nat) -> int, at: nat)
    requires at <= |file| && ReadsFit(file, read)
    ensures Sent(file, read, at, 0) == []
  {
  }

  /** When every read finds something, the file's own bytes are sent. */
  lemma {:induction false} SentFile(file: seq<Byte>, read: (nat, nat) -> int, at: nat, n: nat)
    requires at + n <= |file| && ReadsFit(file, read)
    requires forall p: nat, w: nat :: p < |file| && w > 0 ==> read(p, w) > 0
    ensures Sent(file, read, at, n) == file[at..at + n]
    decreases n
  {
    hide Sent, ReadsFit;
    if n == 0 {
      SentNone(file, read, at);
    } else {
      var got := read(at, Min(n, BUF_SIZE));
      SentMore(file, read, at, n);
      SentFile(file, read, at + got, n - got);
      assert file[at..at + got] + file[at + got..at + n] == file[at..at + n];
    }
  }

  lemma Points(sent: nat, pos: nat, remaining: nat, n: nat)
    requires remaining > 0 && sent + remaining == n && pos == sent % BUF_SIZE
    ensures WritePoint(sent + 1, n) <==> pos + 1 == BUF_SIZE || remaining == 1
    ensures (sent + 1) % BUF_SIZE == if pos + 1 == BUF_SIZE then 0 else pos + 1
  {
  }

  class Bridge {
    const buf: array<Byte>
    var state: State
    var remaining: nat
    var pos: nat
    var fill: nat
    // the open file, and the files on the filesystem
    var name: string
    var file: seq<Byte>
    var filePos: nat
    var files: map<string, seq<Byte>>
    // what was sent over the bus
    var out: seq<Byte>
    // the transfer: how long it is, what was received or sent of it
    ghost var length: nat
    ghost var moved: seq<Byte>

    /** Written, buffered and still expected bytes make up the transfer. */
    ghost predicate SaveOk()
      reads this, buf
      requires buf.Length == BUF_SIZE
    {
      && pos < BUF_SIZE && 0 < remaining && |file| + pos + remaining == length <= MAX_LENGTH
      && moved == file + buf[..pos] && |file| % BUF_SIZE == 0
    }

    /** Sent, and still expected bytes make up the transfer; what is buffered is part of it. */
    ghost predicate LoadOk()
      reads this, buf
      requires buf.Length == BUF_SIZE
    {
      && pos <= fill <= BUF_SIZE && fill - pos <= remaining && |moved| + remaining == length <= MAX_LENGTH
      && length == Min(|file|, MAX_LENGTH) && filePos <= |file|
    }

    ghost predicate Valid()
      reads this, buf
    {
      && buf.Length == BUF_SIZE
      && (state == Saving ==> SaveOk())
      && (state == Loading ==> LoadOk())
    }

    constructor (disk: map<string, seq<Byte>>)
      ensures Valid() && state == Idle && files == disk && out == [] && fresh(buf)
    {
      buf := new Byte[BUF_SIZE];
      state, remaining, pos, fill := Idle, 0, 0, 0;
      name, file, filePos, files, out := "", [], 0, disk, [];
      length, moved := 0, [];
    }

    /** The SAVEMEM command, up to the ready signal. */
    method SaveCommand(filename: string, len: nat, mounted: bool, isDir: bool, open: Open)
      requires Valid() && state == Idle && len <= MAX_LENGTH
      modifies this
      ensures Valid()
      ensures if mounted && !isDir && len > 0 && open == Opened
              then && state == Saving && name == filename && length == remaining == len && moved == []
                   && out == old(out) + Frame(STATUS_OK) && files == Touched(old(files), filename)
              else state == Idle && files == old(files) && out == old(out) +
                   Frame(if !isDir && mounted && len > 0 && open == NoEntry then 0x02 else 0xff)
    {
      hide Touched, LoadOk;
      if isDir || !mounted || len == 0 || open == Failed {
        out := out + [STATUS_ERR, 0, 0];
        return;
      }
      if open == NoEntry {
        out := out + [STATUS_NO_FILE, 0, 0];
        return;
      }
      // opening commits a new entry at once, but truncates an old one only in RAM
      Touch(filename);
      name, file, filePos := filename, [], 0;
      out := out + [STATUS_OK, 0, 0];
      remaining := len;
      state := Saving;
      pos := 0;
      length, moved := len, [];
    }

    /** Opening a file for writing, as far as others see it. */
    method Touch(filename: string)
      requires state == Idle
      modifies `files
      ensures files == Touched(old(files), filename)
    {
      if filename !in files {
        files := files[filename := []];
      }
    }

    /** One byte of a save. */
    method SaveStep(data: Byte, writeFails: bool, closeFails: bool)
      requires Valid() && state == Saving
      modifies this, buf
      ensures Valid() && name == old(name) && length == old(length)
      ensures var last := old(remaining) == 1;
              var point := old(pos) + 1 == BUF_SIZE || last;
              if point && writeFails then
                state == Idle && out == old(out) + Frame(STATUS_ERR) && files == old(files)
              else if last then
                && state == Idle && out == old(out) + Frame(if closeFails then STATUS_ERR else STATUS_OK)
                && files == (if closeFails then old(files) else old(files)[name := old(moved) + [data]])
              else
                && state == Saving && out == old(out) && files == old(files) && moved == old(moved) + [data]
                && remaining == old(remaining) - 1 && pos == if point then 0 else old(pos) + 1
    {
      hide LoadOk;
      ghost var before := buf[..pos];
      buf[pos] := data;
      pos := pos + 1;
      remaining := remaining - 1;
      moved := moved + [data];
      assert buf[..pos] == before + [data];
      // bytes reach the file a buffer at a time, and at the end
      if pos == BUF_SIZE || remaining == 0 {
        if writeFails {
          out := out + [STATUS_ERR, 0, 0];
          state := Idle;
          return;
        }
        file := file + buf[..pos];
        assert file == moved;
        pos := 0;
      }
      if remaining == 0 {
        if closeFails {
          out := out + [STATUS_ERR, 0, 0];
        } else {
          files := files[name := file];
          out := out + [STATUS_OK, 0, 0];
        }
        state := Idle;
      }
    }

    /** A whole save: the host sends its bytes as long as they are expected. Writing fails at the
        points in `fails`. After the ready signal, exactly one more status is sent; it is OK exactly
        when nothing failed, and then the file holds the bytes sent, in order. A save that fails
        leaves the bytes of a file that was there before, and an empty file otherwise. */
    method Save(filename: string, bytes: seq<Byte>, fails: set<nat>, closeFails: bool) returns (sent: nat)
      requires Valid() && state == Idle && 0 < |bytes| <= MAX_LENGTH
      modifies this, buf
      ensures Valid() && state == Idle && 0 < sent <= |bytes|
      ensures var good := !closeFails && forall k :: k in fails ==> !WritePoint(k, |bytes|);
              && out == old(out) + [0x00, 0, 0] + [if good then 0x00 else 0xff, 0, 0]
              && files == if good then old(files)[filename := bytes] else Touched(old(files), filename)
      ensures sent < |bytes| ==> sent in fails && WritePoint(sent, |bytes|)
    {
      hide LoadOk;
      SaveCommand(filename, |bytes|, true, false, Opened);
      sent := 0;
      while state == Saving
        invariant Valid() && state in {Saving, Idle} && name == filename && length == |bytes|
        invariant sent <= |bytes|
        invariant state == Saving ==>
          && sent + remaining == |bytes| && moved == bytes[..sent] && files == Touched(old(files), filename)
              && out == old(out) + Frame(STATUS_OK)
          && pos == sent % BUF_SIZE && forall k :: k in fails ==> k > sent || !WritePoint(k, |bytes|)
        invariant state == Idle ==>
          var good := !closeFails && forall k :: k in fails ==> !WritePoint(k, |bytes|);
          && 0 < sent && (sent < |bytes| ==> sent in fails && WritePoint(sent, |bytes|))
          && out == old(out) + Frame(STATUS_OK) + Frame(if good then STATUS_OK else STATUS_ERR)
          && files == (if good then old(files)[filename := bytes] else Touched(old(files), filename))
        decreases if state == Saving then remaining else 0
      {
        Points(sent, pos, remaining, |bytes|);
        assert bytes[..sent + 1] == bytes[..sent] + [bytes[sent]];
        assert sent + 1 == |bytes| ==> bytes[..sent + 1] == bytes;
        SaveStep(bytes[sent], sent + 1 in fails, closeFails);
        sent := sent + 1;
      }
    }

    /** The LOADMEM command, up to the length. */
    method LoadCommand(filename: string, mounted: bool, isDir: bool, open: Open)
      requires Valid() && state == Idle && (open == Opened ==> filename in files)
      modifies this
      ensures Valid() && files == old(files)
      ensures if mounted && !isDir && open == Opened
              then && state == Loading && file == files[filename] && moved == []
                   && length == remaining == Min(|file|, MAX_LENGTH)
                   && out == old(out) + [STATUS_OK, Low(length), High(length)]
                   && pos == fill == 0 == filePos
              else && state == Idle
                   && out == old(out) +
                      Frame(if !isDir && mounted && open == NoEntry then 0x02 else 0xff)
    {
      hide Low, High, SaveOk, LoadOk;
      if isDir || !mounted || open == Failed {
        out := out + [STATUS_ERR, 0, 0];
        return;
      }
      if open == NoEntry {
        out := out + [STATUS_NO_FILE, 0, 0];
        return;
      }
      Announce(filename);
    }

    /** The file is open: its length goes out, and its bytes are to follow. */
    method Announce(filename: string)
      requires Valid() && state == Idle && filename in files
      modifies this
      ensures Valid() && files == old(files) && state == Loading && file == files[filename] && moved == []
      ensures length == remaining == Min(|file|, MAX_LENGTH) && pos == fill == 0 == filePos
      ensures out == old(out) + [STATUS_OK, Low(length), High(length)]
    {
      hide SaveOk, Low, High;
      name, file, filePos := filename, files[filename], 0;
      var size := if |file| > MAX_LENGTH then MAX_LENGTH else |file|;
      out := out + [STATUS_OK, Low(size), High(size)];
      remaining := size;
      state := Loading;
      pos, fill := 0, 0;
      length, moved := size, [];
    }

    /** Refills the buffer; a read that fails or finds nothing gives zeros. */
    method Refill(got: int)
      requires Valid() && state == Loading && pos == fill && 0 < remaining
      requires got <= Min(remaining, BUF_SIZE) && filePos + got <= |file|
      modifies `pos, `fill, `filePos, buf
      ensures Valid() && pos == 0 < fill && filePos == old(filePos) + Max0(got)
      ensures buf[..fill] == Chunk(file, old(filePos), got, Min(remaining, BUF_SIZE))
    {
      var read := got;
      if read <= 0 {
        forall i | 0 <= i < buf.Length {
          buf[i] := 0;
        }
        read := Min(remaining, BUF_SIZE);
      } else {
        forall i | 0 <= i < read {
          buf[i] := file[filePos + i];
        }
        filePos := filePos + read;
      }
      fill := read;
      pos := 0;
    }

    /** Sends the next buffered byte. */
    method SendByte()
      requires Valid() && state == Loading && pos < fill && remaining > 0
      modifies `out, `moved, `pos, `remaining
      ensures Valid() && pos == old(pos) + 1 && moved + buf[pos..fill] == old(moved + buf[pos..fill])
      ensures moved == old(moved) + [buf[old(pos)]] && out == old(out) + [buf[old(pos)]]
              && remaining == old(remaining) - 1
    {
      assert buf[pos..fill] == [buf[pos]] + buf[pos + 1..fill];
      out := out + [buf[pos]];
      moved := moved + [buf[pos]];
      pos := pos + 1;
      remaining := remaining - 1;
    }

    /** One iteration of the main loop while loading: sends a byte, or ends the transfer. `got` is
        what a read returns, when there is one. */
    method LoadStep(got: int)
      requires Valid() && state == Loading
      requires pos >= fill && remaining > 0 ==> got <= Min(remaining, BUF_SIZE) && filePos + got <= |file|
      modifies this, buf
      ensures Valid() && files == old(files) && file == old(file) && length == old(length)
      ensures state == if old(remaining) <= 1 then Idle else Loading
      ensures |moved| == |old(moved)| + Min(old(remaining), 1) && moved[..|old(moved)|] == old(moved)
      ensures out == old(out) + moved[|old(moved)|..]
      ensures pos <= fill <= BUF_SIZE && fill - pos <= remaining
      ensures var refills := old(pos >= fill && remaining > 0);
              && filePos == old(filePos) + (if refills then Max0(got) else 0)
              && moved + buf[pos..fill] == old(moved + buf[pos..fill]) +
                   if refills then Chunk(file, old(filePos), got, Min(old(remaining), BUF_SIZE)) else []
      ensures remaining == old(remaining) - Min(old(remaining), 1)
    {
      hide SaveOk, Chunk;
      ghost var before := moved + buf[pos..fill];
      if remaining > 0 {
        // everything read from the file so far was sent
        if pos >= fill {
          ghost var chunk := Chunk(file, filePos, got, Min(remaining, BUF_SIZE));
          Refill(got);
          assert before == moved && buf[pos..fill] == chunk;
        }
        SendByte();
      }
      if remaining == 0 {
        state := Idle;
      }
    }

    /** A whole load: exactly the announced number of bytes is sent, what each read finds or zeros if
        it finds nothing. `read` is what reading at a position returns, given how much is wanted. */
    method Load(filename: string, read: (nat, nat) -> int) returns (payload: seq<Byte>)
      requires Valid() && state == Idle && filename in files && ReadsFit(files[filename], read)
      modifies this, buf
      ensures Valid() && state == Idle && files == old(files)
      ensures var n := Min(|files[filename]|, MAX_LENGTH);
              && out == old(out) + [0x00, n % 0x100, n / 0x100] + payload && |payload| == n
              && payload == Sent(files[filename], read, 0, n)
    {
      hide SaveOk, LoadOk, Sent, Chunk, Low, High, ReadsFit, Frame;
      LoadCommand(filename, true, false, Opened);
      ghost var head, n := out, length;
      while state == Loading
        invariant Valid() && state in {Loading, Idle} && files == old(files) && file == files[filename]
        invariant length == n == Min(|file|, MAX_LENGTH) && out == head + moved
        invariant |moved| + remaining == length && (state == Idle ==> remaining == 0)
        invariant pos <= fill <= BUF_SIZE && fill - pos <= remaining && filePos <= |file|
        invariant moved + buf[pos..fill] + Sent(file, read, filePos, remaining - (fill - pos)) == Sent(file, read, 0, n)
        decreases if state == Loading then remaining + 1 else 0
      {
        ghost var before, at, sent, left := moved, filePos, moved + buf[pos..fill], remaining - (fill - pos);
        ghost var refills := pos >= fill && remaining > 0;
        var got := read(filePos, Min(remaining, BUF_SIZE));
        ReadFits(file, read, filePos, Min(remaining, BUF_SIZE));
        LoadStep(got);
        assert before + moved[|before|..] == moved;
        SentStep(file, read, at, sent, left, filePos, moved + buf[pos..fill], refills);
      }
      SentNone(file, read, filePos);
      LowHigh(n);
      payload := out[|out| - Min(|file|, MAX_LENGTH)..];
      assert payload == moved;
    }

    /** What was saved is loaded again, with its length announced. */
    method RoundTrip(filename: string, bytes: seq<Byte>, read: (nat, nat) -> int)
          returns (payload: seq<Byte>, low: Byte, high: Byte)
      requires Valid() && state == Idle && 0 < |bytes| <= MAX_LENGTH
      requires ReadsFit(bytes, read)
      requires forall p: nat, w: nat :: p < |bytes| && w > 0 ==> read(p, w) > 0
      modifies this, buf
      ensures Valid() && state == Idle && payload == bytes && low + 0x100 * high == |bytes|
      ensures out == old(out) + [0x00, 0, 0] + [0x00, 0, 0] + [0x00, low, high] + payload
    {
      var _ := Save(filename, bytes, {}, false);
      payload := Load(filename, read);
      SentFile(bytes, read, 0, |bytes|);
      low, high := Low(|bytes|), High(|bytes|);
      assert bytes[..|bytes|] == bytes;
    }
  }
}
