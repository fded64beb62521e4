/**
 * The io61 buffered file: one cache buffer of `BufSize` bytes holding the
 * window `[beg, end)` of the file, with the file position `pos` inside it.
 * A file is opened for reading or for writing, never both. The descriptor
 * underneath is modelled by the file's bytes and the descriptor's offset;
 * `read`, `write` and `lseek` act on those.
 */
module BufferedIo {
  import opened Common

  const BufSize: nat := 8192

  datatype Mode = ReadOnly | WriteOnly

  function Min(a: int, b: int): int { if a <= b then a else b }

  function Max(a: int, b: int): int { if a <= b then b else a }

  /** The number of bytes a `read` of `count` bytes at offset `off` gets from a file of `size` bytes. */
  function Available(size: nat, off: int, count: nat): (n: nat)
    ensures n <= count
    ensures 0 <= off < size && count > 0 <==> n > 0
    ensures n > 0 ==> off + n <= size
  {
    if off < 0 || off >= size then 0 else Min(count, size - off)
  }

  function Zeros(n: nat): (z: seq<byte>)
    ensures |z| == n
  {
    seq(n, _ => 0)
  }

  /** The file `d` after the byte `x` is written at offset `at`; a gap before `at` reads as zeros. */
  function Put(d: seq<byte>, at: nat, x: byte): (r: seq<byte>)
  {
    if at < |d| then d[at := x] else d + Zeros(at - |d|) + [x]
  }

  /** The file `d` after the bytes `b` are written, one after the other, from offset `at` on. */
  function Overlay(d: seq<byte>, at: nat, b: seq<byte>): (r: seq<byte>)
    decreases |b|
  {
    if b == [] then d else Overlay(Put(d, at, b[0]), at + 1, b[1..])
  }

  /**
   * Byte by byte: the written bytes where they were written, the old file
   * elsewhere, and zeros in a gap between the old end and `at`.
   */
  lemma {:induction false} OverlayAt(d: seq<byte>, at: nat, b: seq<byte>, i: nat)
    requires i < |Overlay(d, at, b)|
    ensures Overlay(d, at, b)[i] == if at <= i < at + |b| then b[i - at] else if i < |d| then d[i] else 0
    decreases |b|
  {
    if b != [] {
      OverlayAt(Put(d, at, b[0]), at + 1, b[1..], i);
    }
  }

  /** A write never truncates: the file ends at its old end or at the last byte
      written, whichever is later. */
  lemma {:induction false} OverlayLength(d: seq<byte>, at: nat, b: seq<byte>)
    ensures |Overlay(d, at, b)| == if b == [] then |d| else Max(|d|, at + |b|)
    decreases |b|
  {
    if b != [] {
      OverlayLength(Put(d, at, b[0]), at + 1, b[1..]);
    }
  }

  /** Two writes one after the other are one write of both. */
  lemma {:induction false} OverlayAppend(d: seq<byte>, at: nat, a: seq<byte>, b: seq<byte>)
    ensures Overlay(Overlay(d, at, a), at + |a|, b) == Overlay(d, at, a + b)
    decreases |a|
  {
    if a == [] {
      assert a + b == b;
    } else {
      OverlayAppend(Put(d, at, a[0]), at + 1, a[1..], b);
      assert (a + b)[0] == a[0] && (a + b)[1..] == a[1..] + b;
    }
  }

  /**
   * What a reader of `d` gets from position `p` on when the window ends at
   * `e`: the rest of the file, or only the cached part of it while every
   * further OS read fails.
   */
  function Remaining(d: seq<byte>, p: int, e: int, fails: bool): seq<byte>
  {
    if fails then (if 0 <= p < e <= |d| then d[p..e] else [])
    else if 0 <= p < |d| then d[p..]
    else []
  }

  /**
   * Taking `n` cached bytes from the position takes the next `n` readable
   * bytes, and what stays readable is the rest: stated for a sequence `r`
   * whose suffix from `i` is what is readable.
   */
  lemma RemainingAdvance(d: seq<byte>, p: int, e: int, fails: bool, n: nat, r: seq<byte>, i: nat)
    requires 0 <= p && p + n <= e <= |d|
    requires i <= |r| && r[i..] == Remaining(d, p, e, fails)
    ensures i + n <= |r|
    ensures forall j | i <= j < i + n :: r[j] == d[p + (j - i)]
    ensures r[i + n..] == Remaining(d, p + n, e, fails)
  {
    forall j | i <= j < i + n
      ensures r[j] == d[p + (j - i)]
    {
      assert r[j] == r[i..][j - i];
    }
    assert r[i + n..] == r[i..][n..];
  }

  /** Writing a buffer piece by piece is writing it whole. */
  lemma WrittenStep(d: seq<byte>, at: nat, buf: seq<byte>, i: nat, j: nat, written: seq<byte>)
    requires i <= j <= |buf| && written == Overlay(d, at, buf[..i])
    ensures Overlay(written, at + i, buf[i..j]) == Overlay(d, at, buf[..j])
  {
    OverlayAppend(d, at, buf[..i], buf[i..j]);
    assert buf[..i] + buf[i..j] == buf[..j];
  }

  class File {
    const mode: Mode
    /** The cache buffer. */
    const cbuf: array<byte>
    /** File offset of `cbuf[0]`. */
    var beg: int
    /** The file position. */
    var pos: int
    /** File offset just past the cached bytes. */
    var end: int
    /** The bytes of the file the descriptor refers to. */
    var data: seq<byte>
    /** The descriptor's own offset, where its next `read` or `write` happens. */
    var off: nat
    /** Whether the device fails every `read`. */
    var readFails: bool

    /** The window invariant: `beg <= pos <= end <= beg + BufSize`, at an offset that is not negative. */
    ghost predicate Window()
      reads this
    {
      cbuf.Length == BufSize && 0 <= beg <= pos <= end <= beg + BufSize
    }

    /** When reading, the cached bytes are the file's bytes at `[beg, end)` and the descriptor is just past them. */
    ghost predicate ReadValid()
      reads this, cbuf
    {
      mode == ReadOnly && Window() && off == end &&
      (beg < end ==> end <= |data| && cbuf[..end - beg] == data[beg..end])
    }

    /** When writing, `[beg, pos)` are bytes still to be written at the descriptor's offset. */
    ghost predicate WriteValid()
      reads this
    {
      mode == WriteOnly && Window() && pos == end && off == beg
    }

    ghost predicate Valid()
      reads this, cbuf
    {
      if mode == ReadOnly then ReadValid() else WriteValid()
    }

    /** What a reader gets from the position on: the rest of the file, or only the cached rest while the device fails. */
    ghost function Readable(): seq<byte>
      reads this
    {
      Remaining(data, pos, end, readFails)
    }

    /** The file as it reads once the bytes waiting in the buffer are written out. */
    ghost function Contents(): seq<byte>
      requires WriteValid()
      reads this, cbuf
    {
      Overlay(data, off, cbuf[..pos - beg])
    }

    /** `io61_fdopen`: an empty window at offset 0. */
    constructor (m: Mode, file: seq<byte>, fails: bool)
      ensures Valid() && mode == m && data == file && readFails == fails
      ensures beg == 0 && pos == 0 && end == 0 && off == 0
      ensures fresh(cbuf)
    {
      mode := m;
      cbuf := new byte[BufSize](_ => 0);
      beg, pos, end := 0, 0, 0;
      data := file;
      off := 0;
      readFails := fails;
    }

    /** The system call `read(fd, cbuf, BufSize)`: the bytes at the descriptor's offset, or -1 when the device fails. */
    method OsRead() returns (n: int)
      requires cbuf.Length == BufSize
      modifies this`off, cbuf
      ensures readFails ==> n == -1 && off == old(off) && cbuf[..] == old(cbuf[..])
      ensures !readFails ==> n == Available(|data|, old(off), BufSize) && off == old(off) + n
      ensures !readFails && n > 0 ==> cbuf[..n] == data[old(off)..off]
    {
      if readFails {
        return -1;
      }
      n := Available(|data|, off, BufSize);
      forall i | 0 <= i < n {
        cbuf[i] := data[off + i];
      }
      off := off + n;
    }

    /** The system call `lseek(fd, to, SEEK_SET)`: moves the descriptor's offset, failing for a negative one. */
    method OsSeek(to: int) returns (r: int)
      modifies this`off
      ensures r == if to >= 0 then to else -1
      ensures off == if to >= 0 then to else old(off)
    {
      if to < 0 {
        return -1;
      }
      off := to;
      r := to;
    }

    /** The system call `write(fd, cbuf, n)`, which here always writes all `n` bytes. */
    method OsWrite(n: nat) returns (r: int)
      requires n <= cbuf.Length
      modifies this`data, this`off
      ensures r == n
      ensures data == Overlay(old(data), old(off), cbuf[..n]) && off == old(off) + n
    {
      data := Overlay(data, off, cbuf[..n]);
      off := off + n;
      r := n;
    }

    /**
     * `io61_fill`: the window restarts, empty, at its old end and takes
     * what one `read` delivers; on a failed `read` it stays empty.
     */
    method Fill()
      requires cbuf.Length == BufSize && mode == ReadOnly && 0 <= end && off == end
      modifies this, cbuf
      ensures ReadValid()
      ensures beg == pos == old(end)
      ensures end == old(end) + (if readFails then 0 else Available(|data|, old(end), BufSize))
      ensures data == old(data) && readFails == old(readFails)
    {
      beg, pos := end, end;
      var nread := OsRead();
      if nread >= 0 {
        end := beg + nread;
      }
    }

    /**
     * `io61_readc`: the byte at the position, refilling the window first
     * when it is used up; EOF (-1) when nothing more can be read.
     */
    method ReadC() returns (c: int)
      requires ReadValid()
      modifies this, cbuf
      ensures ReadValid() && data == old(data) && readFails == old(readFails)
      ensures c == if old(Readable()) == [] then -1 else old(Readable())[0]
      ensures Readable() == if old(Readable()) == [] then [] else old(Readable())[1..]
      ensures pos == old(pos) + (if c == -1 then 0 else 1)
      ensures old(pos) < old(end) ==> beg == old(beg) && end == old(end)
    {
      if pos == end {
        Fill();
        if pos == end {
          return -1;
        }
      }
      c := cbuf[pos - beg];
      assert cbuf[..end - beg][pos - beg] == data[beg..end][pos - beg];
      pos := pos + 1;
    }

    /** `io61_read`'s refill step: a used-up window is refilled; what is readable does not change, and it is empty exactly when the window still is. */
    method Refill()
      requires ReadValid()
      modifies this, cbuf
      ensures ReadValid() && data == old(data) && readFails == old(readFails)
      ensures pos == old(pos) && Readable() == old(Readable())
      ensures Readable() != [] <==> pos < end
    {
      if pos >= end {
        Fill();
      }
    }

    /**
     * One pass of `io61_read`'s copy: `count` cached bytes from the position
     * into `buf` at `at`. `before` is what was readable `at` bytes ago; the
     * bytes copied are its next ones.
     */
    method CopyOut(buf: array<byte>, at: nat, count: nat, ghost before: seq<byte>)
      requires ReadValid() && buf != cbuf
      requires 0 < count <= end - pos && at + count <= buf.Length
      requires at <= |before| && Readable() == before[at..]
      modifies this`pos, buf
      ensures ReadValid()
      ensures pos == old(pos) + count
      ensures at + count <= |before| && Readable() == before[at + count..]
      ensures forall j | 0 <= j < at :: buf[j] == old(buf[j])
      ensures forall j | at <= j < at + count :: buf[j] == before[j]
      ensures forall j | at + count <= j < buf.Length :: buf[j] == old(buf[j])
    {
      RemainingAdvance(data, pos, end, readFails, count, before, at);
      var k := pos - beg;
      forall j | at <= j < at + count {
        buf[j] := cbuf[k + (j - at)];
      }
      forall j | at <= j < at + count
        ensures buf[j] == before[j]
      {
        assert buf[j] == cbuf[..end - beg][k + (j - at)];
      }
      pos := pos + count;
    }

    /**
     * One pass of `io61_read`'s loop: refill a used-up window, then copy
     * as many of the `remaining` bytes as it holds into `buf` at `at`.
     * `before` is what was readable when the read began, `at` bytes ago;
     * the pass copies nothing exactly when all of it has been read.
     */
    method ReadPass(buf: array<byte>, at: nat, remaining: nat, ghost before: seq<byte>) returns (got: nat)
      requires ReadValid() && buf != cbuf && 0 < remaining && at + remaining <= buf.Length
      requires at <= |before| && Readable() == before[at..]
      modifies this, cbuf, buf
      ensures ReadValid() && data == old(data) && readFails == old(readFails)
      ensures got <= remaining && at + got <= |before|
      ensures got == 0 <==> at == |before|
      ensures pos == old(pos) + got && Readable() == before[at + got..]
      ensures forall j | 0 <= j < at :: buf[j] == old(buf[j])
      ensures forall j | at <= j < at + got :: buf[j] == before[j]
      ensures forall j | at + got <= j < buf.Length :: buf[j] == old(buf[j])
    {
      Refill();
      if pos >= end {
        return 0;
      }
      got := end - pos;
      if remaining < got {
        got := remaining;
      }
      CopyOut(buf, at, got, before);
    }

    /**
     * `io61_read`: the next `sz` readable bytes, or as many as there are,
     * copied into `buf` in file order; -1 when none were copied, which
     * includes `sz == 0`.
     */
    method Read(buf: array<byte>, sz: nat) returns (r: int)
      requires ReadValid() && buf != cbuf && sz <= buf.Length
      modifies this, cbuf, buf
      ensures ReadValid() && data == old(data) && readFails == old(readFails)
      ensures var k := Min(sz, |old(Readable())|);
              r == (if k == 0 then -1 else k) &&
              pos == old(pos) + k &&
              Readable() == old(Readable())[k..] &&
              (forall j | 0 <= j < k :: buf[j] == old(Readable())[j]) &&
              (forall j | k <= j < buf.Length :: buf[j] == old(buf[j]))
    {
      ghost var before := Readable();
      ghost var original := buf[..];
      ghost var pos0 := pos;
      var bytesRead: nat := 0;
      while bytesRead < sz
        invariant ReadValid() && data == old(data) && readFails == old(readFails)
        invariant bytesRead <= sz && bytesRead <= |before|
        invariant pos == pos0 + bytesRead && Readable() == before[bytesRead..]
        invariant forall j | 0 <= j < bytesRead :: buf[j] == before[j]
        invariant forall j | bytesRead <= j < buf.Length :: buf[j] == original[j]
        decreases sz - bytesRead
      {
        var got := ReadPass(buf, bytesRead, sz - bytesRead, before);
        if got == 0 {
          break;
        }
        bytesRead := bytesRead + got;
      }
      if bytesRead == 0 {
        return -1;
      }
      r := bytesRead;
    }

    /** `io61_flush`: when writing, hands the waiting bytes to `write` and empties the window at the position. */
    method Flush() returns (r: int)
      requires Valid()
      modifies this
      ensures Valid() && r == 0 && readFails == old(readFails)
      ensures mode == ReadOnly ==> data == old(data) && off == old(off) && beg == old(beg) && pos == old(pos) && end == old(end)
      ensures mode == WriteOnly ==> Contents() == old(Contents())
      ensures mode == WriteOnly ==> beg == pos == end == old(pos) && data == Overlay(old(data), old(off), old(cbuf[..pos - beg]))
    {
      if mode == ReadOnly {
        return 0;
      }
      var n := OsWrite(pos - beg);
      beg := pos;
      if n >= 0 {
        r := 0;
      } else {
        r := n;
      }
    }

    /** `io61_writec`: writes the low eight bits of `ch` at the position, flushing a full buffer first. */
    method WriteC(ch: int) returns (r: int)
      requires WriteValid()
      modifies this, cbuf
      ensures WriteValid() && r == 0 && readFails == old(readFails)
      ensures pos == old(pos) + 1
      ensures Contents() == Overlay(old(Contents()), old(pos), [ch % 256])
    {
      if end == beg + BufSize {
        var _ := Flush();
      }
      ghost var pending := cbuf[..pos - beg];
      ghost var contents := Contents();
      // storing the `int` into the `char` buffer keeps its low eight bits
      var b: byte := ch % 256;
      cbuf[pos - beg] := b;
      pos := pos + 1;
      end := end + 1;
      assert cbuf[..pos - beg] == pending + [b];
      OverlayAppend(data, off, pending, [b]);
      r := 0;
    }

    /** One pass of `io61_write`'s copy: `count` bytes of `buf` from `at` into the buffer at the position. */
    method CopyIn(buf: seq<byte>, at: nat, count: nat)
      requires WriteValid()
      requires pos - beg + count <= BufSize && at + count <= |buf|
      modifies this`pos, this`end, cbuf
      ensures WriteValid()
      ensures pos == old(pos) + count
      ensures Contents() == Overlay(old(Contents()), old(pos), buf[at..at + count])
    {
      var k := pos - beg;
      ghost var pending := cbuf[..k];
      ghost var chunk := buf[at..at + count];
      ghost var before := Contents();
      assert before == Overlay(data, off, pending);
      forall j | 0 <= j < count {
        cbuf[k + j] := buf[at + j];
      }
      assert cbuf[..k + count] == pending + chunk by {
        assert cbuf[..k] == pending;
        assert cbuf[k..k + count] == chunk;
        assert cbuf[..k + count] == cbuf[..k] + cbuf[k..k + count];
      }
      pos := pos + count;
      end := end + count;
      assert Contents() == Overlay(data, off, pending + chunk);
      OverlayAppend(data, off, pending, chunk);
      assert old(pos) == off + |pending| && before == old(Contents());
    }

    /**
     * One pass of `io61_write`'s loop: a full buffer is flushed first, then
     * as many of the `remaining` bytes of `buf` from `at` as fit are copied in.
     */
    method WritePass(buf: seq<byte>, at: nat, remaining: nat) returns (rec: nat)
      requires WriteValid() && remaining > 0 && at + remaining <= |buf|
      modifies this, cbuf
      ensures WriteValid() && readFails == old(readFails)
      ensures 0 < rec <= remaining && pos == old(pos) + rec
      ensures Contents() == Overlay(old(Contents()), old(pos), buf[at..at + rec])
    {
      if end == beg + BufSize {
        var _ := Flush();
      }
      rec := BufSize - (pos - beg);
      if remaining < rec {
        rec := remaining;
      }
      CopyIn(buf, at, rec);
    }

    /** `io61_write`: writes the `sz` bytes of `buf` at the position, a buffer at a time; returns `sz`. */
    method Write(buf: seq<byte>, sz: nat) returns (r: int)
      requires WriteValid() && sz <= |buf|
      modifies this, cbuf
      ensures WriteValid() && readFails == old(readFails)
      ensures r == sz && pos == old(pos) + sz
      ensures Contents() == Overlay(old(Contents()), old(pos), buf[..sz])
    {
      ghost var start := Contents();
      ghost var pos0 := pos;
      ghost var written := start;
      var bytesWritten: nat := 0;
      while bytesWritten < sz
        invariant WriteValid() && readFails == old(readFails)
        invariant bytesWritten <= sz
        invariant pos == pos0 + bytesWritten
        invariant Contents() == written
        invariant written == Overlay(start, pos0, buf[..bytesWritten])
        decreases sz - bytesWritten
      {
        var rec := WritePass(buf, bytesWritten, sz - bytesWritten);
        WrittenStep(start, pos0, buf, bytesWritten, bytesWritten + rec, written);
        written := Overlay(written, pos0 + bytesWritten, buf[bytesWritten..bytesWritten + rec]);
        bytesWritten := bytesWritten + rec;
      }
      r := bytesWritten;
    }

    /**
     * `io61_seek` with the two faults recorded under Findings corrected: a
     * negative target fails without moving anything, and a read-mode target
     * past what the refill brings in gets an empty window of its own.
     * A target inside the window only moves the position; otherwise a
     * reader reloads the window from the target rounded down to a multiple
     * of `BufSize`, and a writer flushes and empties the window at the target.
     */
    method Seek(p: int) returns (r: int)
      requires Valid()
      modifies this, cbuf
      ensures Valid() && readFails == old(readFails)
      ensures mode == ReadOnly ==> data == old(data)
      ensures r == if p >= 0 then 0 else -1
      ensures pos == if p >= 0 then p else old(pos)
      ensures mode == ReadOnly && old(beg) <= p < old(end) ==> beg == old(beg) && end == old(end) && cbuf[..] == old(cbuf[..])
      ensures mode == ReadOnly && !(old(beg) <= p < old(end)) && p >= 0 ==>
                (beg == p / BufSize * BufSize && p <= end) || beg == end == p
      ensures mode == ReadOnly && p < 0 ==> beg == old(beg) && end == old(end)
      ensures mode == ReadOnly && !readFails ==> Readable() == if 0 <= pos < |data| then data[pos..] else []
      ensures mode == WriteOnly ==> Contents() == old(Contents())
      ensures mode == WriteOnly && p >= 0 ==> beg == end == p
    {
      if mode == WriteOnly {
        var _ := Flush();
      }
      if p < end && p >= beg {
        pos := p;
        return 0;
      }
      if p < 0 {
        return -1;
      }
      var newPos := p;
      if mode == ReadOnly {
        newPos := (p / BufSize) * BufSize;
      }
      var s := OsSeek(newPos);
      if mode == ReadOnly {
        end := newPos;
        Fill();
        if p > end {
          // the file ends before the target, or the device failed
          s := OsSeek(p);
          beg, end := p, p;
        }
      } else {
        beg, end := p, p;
      }
      pos := p;
      r := 0;
    }
  }

  // ---------------------------------------------------------------------
  // io61_seek as written
  // ---------------------------------------------------------------------

  /** The window tags and the descriptor's offset. */
  datatype Window = Window(beg: int, pos: int, end: int, off: int)

  datatype SeekOutcome = SeekOutcome(w: Window, r: int)

  /** C's `/` on a positive divisor, which rounds toward zero. */
  function CDiv(a: int, b: int): int
    requires b > 0
  {
    if a >= 0 then a / b else -((-a) / b)
  }

  /**
   * `io61_seek` on a file of `size` bytes, exactly as written. A writer
   * first flushes, which writes `[beg, pos)` at the offset and moves `beg`
   * to `pos`. Outside the window a reader rounds the target toward zero to
   * a multiple of `BufSize`, seeks there and refills; a writer seeks to the
   * target and sets both tags to it, whether or not that seek succeeded.
   * Either way the position ends at the target, and the result is 0 exactly
   * when `lseek` returned the offset asked for; a failed `lseek` returns -1,
   * which a writer's target of -1 cannot tell from success.
   */
  function SeekAsWritten(mode: Mode, w: Window, size: nat, readFails: bool, p: int): (o: SeekOutcome)
    ensures mode == ReadOnly && w.beg <= p < w.end ==> o == SeekOutcome(w.(pos := p), 0)
    ensures mode == WriteOnly && w.pos == w.end ==>
      o.w.beg == o.w.end == p && o.w.off == (if p >= 0 then p else w.off + (w.pos - w.beg))
      && (o.r == 0 <==> p >= -1)
    ensures o.w.pos == p
  {
    var w := if mode == WriteOnly then w.(beg := w.pos, off := w.off + (w.pos - w.beg)) else w;
    if p < w.end && p >= w.beg then SeekOutcome(w.(pos := p), 0)
    else
      var newPos := if mode == ReadOnly then CDiv(p, BufSize) * BufSize else p;
      var r := if newPos >= 0 then newPos else -1;
      var off := if newPos >= 0 then newPos else w.off;
      if mode == WriteOnly then SeekOutcome(Window(p, p, p, off), if r == newPos then 0 else -1)
      else
        var nread := if readFails then -1 else Available(size, off, BufSize);
        var end := if nread >= 0 then newPos + nread else newPos;
        SeekOutcome(Window(newPos, p, end, if nread >= 0 then off + nread else off), if r == newPos then 0 else -1)
  }

  /** The window invariant the rest of the file's operations rely on. */
  predicate WindowOk(w: Window) {
    w.beg <= w.pos <= w.end <= w.beg + BufSize
  }

  /**
   * As written, a seek to a target that is not negative keeps the window
   * invariant exactly when the refill reaches the target.
   */
  lemma SeekAsWrittenKeepsWindow(w: Window, size: nat, readFails: bool, p: int)
    requires 0 <= p && !(w.beg <= p < w.end)
    ensures var o := SeekAsWritten(ReadOnly, w, size, readFails, p);
            WindowOk(o.w) <==> p <= o.w.end
  {
    assert CDiv(p, BufSize) * BufSize <= p < CDiv(p, BufSize) * BufSize + BufSize;
  }

  /** Seeking past the end of the file leaves the position beyond the window: `io61_readc` then returns a stale byte instead of EOF. */
  lemma SeekPastEndOfFile()
    ensures var o := SeekAsWritten(ReadOnly, Window(0, 0, 0, 0), 100, false, 10000);
            o == SeekOutcome(Window(8192, 10000, 8192, 8192), 0) && o.w.pos > o.w.end && o.r == 0
  {
  }

  /** Seeking to -1 rounds to offset 0, succeeds, and leaves the position before the window. */
  lemma SeekNegative()
    ensures var o := SeekAsWritten(ReadOnly, Window(0, 0, 0, 0), 100, false, -1);
            o == SeekOutcome(Window(0, -1, 100, 100), 0) && o.w.pos < o.w.beg
  {
  }

  /** A writer seeking to a negative target moves both tags there although the
      descriptor stays at the end of what was flushed, so the position and the
      offset the next flush writes at no longer agree; for -1 the failed `lseek`
      even reads as success. */
  lemma SeekNegativeWriter()
    ensures var o := SeekAsWritten(WriteOnly, Window(0, 5, 5, 0), 0, false, -2);
            o == SeekOutcome(Window(-2, -2, -2, 5), -1) && o.w.beg != o.w.off
    ensures var o := SeekAsWritten(WriteOnly, Window(0, 5, 5, 0), 0, false, -1);
            o == SeekOutcome(Window(-1, -1, -1, 5), 0) && o.w.beg != o.w.off
  {
  }
}
