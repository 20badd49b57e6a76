/** A model of the I/O engine of the pseudo character driver: one fixed
    512-byte device buffer, a per-open file position, and the read, write and
    lseek file operations that move bytes between that buffer and a user
    region.

    The pure part (clamping, the seek candidate, what each operation returns
    and the state it leaves) is stated as functions on values; the driver
    itself is a class whose methods update the buffer in place and the file
    position through the `File` object, and each method is proved to behave
    exactly as its specification function says. */
module Pcd {

  /** One byte of device memory or of a user region (`char` in the driver). */
  type byte = bv8

  /** PCD_MEM_SIZE: the capacity of the device buffer. */
  const MemSize: int := 512

  /** The `whence` values of the Linux lseek ABI. */
  const SeekSet: int := 0
  const SeekCur: int := 1
  const SeekEnd: int := 2

  datatype Option<T> = None | Some(value: T)

  /** The error codes the driver hands back. */
  datatype Errno = ENOMEM | EFAULT | EINVAL

  /** The positive error numbers of Linux's errno-base.h. */
  function Number(e: Errno): (k: int)
    ensures 0 < k
  {
    match e
    case ENOMEM => 12
    case EFAULT => 14
    case EINVAL => 22
  }

  /** What a file operation returns: a byte count (read, write) or a new
      position (lseek), or an error. */
  datatype Outcome = Ok(n: nat) | Err(e: Errno)

  /** The `ssize_t` / `loff_t` the C function returns: the count or position
      itself, or minus the error number. */
  function ReturnValue(r: Outcome): (v: int)
    ensures r.Ok? <==> 0 <= v
    ensures r.Ok? ==> v == r.n
  {
    match r
    case Ok(n) => n
    case Err(e) => -Number(e)
  }

  /** The C encoding loses nothing: distinct outcomes give distinct return values. */
  lemma ReturnValueInjective(r1: Outcome, r2: Outcome)
    ensures ReturnValue(r1) == ReturnValue(r2) ==> r1 == r2
  {
    if r1.Err? && r2.Err? && ReturnValue(r1) == ReturnValue(r2) {
      assert Number(r1.e) == Number(r2.e);
    }
  }

  /** A file position inside the device, end included. */
  predicate ValidPos(pos: int) {
    0 <= pos <= MemSize
  }

  /** Step 1 of read and write: a request that would run past the end of the
      buffer is cut down to the bytes left; the result is the smaller of the
      request and the room left. */
  function Clamp(pos: int, count: nat): (n: nat)
    requires ValidPos(pos)
    ensures n <= count && pos + n <= MemSize
    ensures n == count || pos + n == MemSize
  {
    if pos + count > MemSize then MemSize - pos else count
  }

  /** Whether the kernel's copy of `n` bytes to or from a user region fails.
      `fault` says that the user region is not accessible; a copy of no bytes
      touches no user memory and so cannot fail. */
  predicate CopyFaults(fault: bool, n: nat) {
    fault && n > 0
  }

  /* ---------------------------------------------------------------------
     read
     --------------------------------------------------------------------- */

  /** What a read hands back and the position it leaves. */
  datatype ReadResult = ReadResult(ret: Outcome, data: seq<byte>, pos: int)

  /** pcd_read: clamp the request, copy that slice of the buffer out, advance
      the position by the number of bytes copied. At the end of the buffer
      nothing is copied and 0 is returned. */
  function ReadSpec(buf: seq<byte>, pos: int, count: nat, fault: bool): (r: ReadResult)
    requires |buf| == MemSize && ValidPos(pos)
    ensures ValidPos(r.pos)
    ensures r.ret.Ok? ==> r.ret.n <= count && (r.ret.n == count || r.pos == MemSize)
    ensures r.ret.Ok? ==> r.pos == pos + r.ret.n && r.data == buf[pos..r.pos]
    ensures r.ret.Err? ==> r.ret.e == EFAULT && r.pos == pos && r.data == []
    ensures r.ret.Err? <==> fault && pos < MemSize && 0 < count
  {
    var n := Clamp(pos, count);
    if CopyFaults(fault, n) then ReadResult(Err(EFAULT), [], pos)
    else ReadResult(Ok(n), buf[pos..pos + n], pos + n)
  }

  /** A read at the end of the buffer returns 0 without an error and leaves
      the position where it is, whatever the request and the user region. */
  lemma ReadAtEndReturnsZero(buf: seq<byte>, count: nat, fault: bool)
    requires |buf| == MemSize
    ensures ReadSpec(buf, MemSize, count, fault) == ReadResult(Ok(0), [], MemSize)
  {
  }

  /* ---------------------------------------------------------------------
     write
     --------------------------------------------------------------------- */

  /** What a write returns, the buffer it leaves and the position it leaves. */
  datatype WriteResult = WriteResult(ret: Outcome, buf: seq<byte>, pos: int)

  /** pcd_write: clamp the request; with no byte left to write fail with
      ENOMEM; otherwise copy the user bytes over the buffer from the position
      on and advance the position by the number of bytes written. The copy
      lands straight in the device buffer, and the kernel's copy_from_user
      zero-fills every destination byte it could not copy: a faulting copy
      leaves the clamped window zeroed and fails with EFAULT. */
  function WriteSpec(buf: seq<byte>, pos: int, src: seq<byte>, fault: bool): (r: WriteResult)
    requires |buf| == MemSize && ValidPos(pos)
    ensures |r.buf| == MemSize && ValidPos(r.pos)
    ensures r.ret.Ok? ==> 0 < r.ret.n <= |src| && (r.ret.n == |src| || r.pos == MemSize)
    ensures r.ret.Ok? ==> r.pos == pos + r.ret.n && r.buf[pos..r.pos] == src[..r.ret.n]
    ensures r.ret.Ok? ==> r.buf[..pos] == buf[..pos] && r.buf[r.pos..] == buf[r.pos..]
    ensures r.ret.Err? ==> r.ret.e != EINVAL && r.pos == pos
    ensures r.ret == Err(ENOMEM) <==> pos == MemSize || |src| == 0
    ensures r.ret == Err(ENOMEM) ==> r.buf == buf
    ensures r.ret == Err(EFAULT) <==> fault && pos < MemSize && 0 < |src|
    ensures r.ret == Err(EFAULT) ==>
              var end := pos + Clamp(pos, |src|);
              (forall i :: pos <= i < end ==> r.buf[i] == 0) &&
              r.buf[..pos] == buf[..pos] && r.buf[end..] == buf[end..]
  {
    var n := Clamp(pos, |src|);
    if n == 0 then WriteResult(Err(ENOMEM), buf, pos)
    else if CopyFaults(fault, n) then
      WriteResult(Err(EFAULT), buf[..pos] + seq(n, _ => 0) + buf[pos + n..], pos)
    else WriteResult(Ok(n), buf[..pos] + src[..n] + buf[pos + n..], pos + n)
  }

  /* ---------------------------------------------------------------------
     lseek
     --------------------------------------------------------------------- */

  /** What an lseek returns and the position it leaves. */
  datatype SeekResult = SeekResult(ret: Outcome, pos: int)

  /** pcd_lseek: each known `whence` checks its own candidate position against
      the bounds of the buffer; anything else is EINVAL. */
  function LseekSpec(pos: int, offset: int, whence: int): (r: SeekResult)
    requires ValidPos(pos)
    ensures ValidPos(r.pos)
    ensures r.ret.Ok? ==> r.ret.n == r.pos
    ensures r.ret.Err? ==> r.ret.e == EINVAL && r.pos == pos
    ensures r.ret.Ok? ==> whence == SeekSet || whence == SeekCur || whence == SeekEnd
  {
    if whence == SeekSet then
      if offset > MemSize || offset < 0 then SeekResult(Err(EINVAL), pos)
      else SeekResult(Ok(offset), offset)
    else if whence == SeekCur then
      var temp := pos + offset;
      if temp > MemSize || temp < 0 then SeekResult(Err(EINVAL), pos)
      else SeekResult(Ok(temp), temp)
    else if whence == SeekEnd then
      var temp := MemSize + offset;
      if temp > MemSize || temp < 0 then SeekResult(Err(EINVAL), pos)
      else SeekResult(Ok(temp), temp)
    else
      SeekResult(Err(EINVAL), pos)
  }

  /** The position a `whence` names, before any bound is checked; None for a
      `whence` the driver does not know. */
  function Candidate(pos: int, offset: int, whence: int): Option<int> {
    if whence == SeekSet then Some(offset)
    else if whence == SeekCur then Some(pos + offset)
    else if whence == SeekEnd then Some(MemSize + offset)
    else None
  }

  /** lseek succeeds exactly when the candidate exists and lies inside the
      buffer, end included, and then moves to that candidate. */
  lemma LseekAcceptsExactlyInRange(pos: int, offset: int, whence: int)
    requires ValidPos(pos)
    ensures var r, c := LseekSpec(pos, offset, whence), Candidate(pos, offset, whence);
            (r.ret.Ok? <==> c.Some? && ValidPos(c.value)) &&
            (r.ret.Ok? ==> r.pos == c.value)
  {
  }

  /** The bounds of a SEEK_SET: the end itself is reachable, one past it and
      one before the start are not. */
  lemma LseekSetBounds(pos: int)
    requires ValidPos(pos)
    ensures LseekSpec(pos, MemSize, SeekSet) == SeekResult(Ok(MemSize), MemSize)
    ensures LseekSpec(pos, MemSize + 1, SeekSet) == SeekResult(Err(EINVAL), pos)
    ensures LseekSpec(pos, -1, SeekSet) == SeekResult(Err(EINVAL), pos)
  {
  }

  /* ---------------------------------------------------------------------
     sequences of calls
     --------------------------------------------------------------------- */

  /** The driver's state as one open file sees it. */
  datatype State = State(buf: seq<byte>, pos: int)

  predicate ValidState(s: State) {
    |s.buf| == MemSize && ValidPos(s.pos)
  }

  /** One call into the driver, with its user region's accessibility. */
  datatype Call =
    | ReadCall(count: nat, fault: bool)
    | WriteCall(src: seq<byte>, fault: bool)
    | LseekCall(offset: int, whence: int)

  /** The state one call leaves. Reads and seeks never change the buffer. */
  function Step(s: State, c: Call): (t: State)
    requires ValidState(s)
    ensures ValidState(t)
    ensures !c.WriteCall? ==> t.buf == s.buf
  {
    match c
    case ReadCall(count, fault) => State(s.buf, ReadSpec(s.buf, s.pos, count, fault).pos)
    case WriteCall(src, fault) =>
      var w := WriteSpec(s.buf, s.pos, src, fault);
      State(w.buf, w.pos)
    case LseekCall(offset, whence) => State(s.buf, LseekSpec(s.pos, offset, whence).pos)
  }

  /** The state a sequence of calls leaves: the buffer keeps its size and the
      position stays inside it, whatever the calls. */
  function Run(s: State, calls: seq<Call>): (t: State)
    requires ValidState(s)
    ensures ValidState(t)
    decreases |calls|
  {
    if calls == [] then s else Run(Step(s, calls[0]), calls[1..])
  }

  /** Reads and seeks alone, in any number and order, leave the buffer as it was. */
  lemma {:induction false} RunWithoutWritesKeepsBuffer(s: State, calls: seq<Call>)
    requires ValidState(s)
    requires forall i :: 0 <= i < |calls| ==> !calls[i].WriteCall?
    ensures Run(s, calls).buf == s.buf
    decreases |calls|
  {
    if calls != [] {
      RunWithoutWritesKeepsBuffer(Step(s, calls[0]), calls[1..]);
    }
  }

  /** Round trip: bytes written at p are read back by a read of the same
      length after an lseek(SEEK_SET, p). */
  lemma WriteSeekReadRoundTrip(buf: seq<byte>, p: int, src: seq<byte>)
    requires |buf| == MemSize && ValidPos(p)
    ensures var w := WriteSpec(buf, p, src, false);
            var s := LseekSpec(w.pos, p, SeekSet);
            var r := ReadSpec(w.buf, s.pos, |src|, false);
            w.ret.Ok? ==> s == SeekResult(Ok(p), p) && r.ret == w.ret && r.data == src[..w.ret.n]
  {
  }

  /** Round trip across other calls: after a write at p, any reads and seeks
      in between, and an lseek(SEEK_SET, p), a read of the same length
      returns the bytes written. */
  lemma {:induction false} WrittenBytesSurviveReadsAndSeeks(s: State, src: seq<byte>, calls: seq<Call>)
    requires ValidState(s)
    requires forall i :: 0 <= i < |calls| ==> !calls[i].WriteCall?
    ensures var w := WriteSpec(s.buf, s.pos, src, false);
            var t := Run(State(w.buf, w.pos), calls);
            var k := LseekSpec(t.pos, s.pos, SeekSet);
            var r := ReadSpec(t.buf, k.pos, |src|, false);
            w.ret.Ok? ==> r.ret == w.ret && r.data == src[..w.ret.n]
  {
    var w := WriteSpec(s.buf, s.pos, src, false);
    RunWithoutWritesKeepsBuffer(State(w.buf, w.pos), calls);
  }

  /* ---------------------------------------------------------------------
     the driver
     --------------------------------------------------------------------- */

  /** An open file: `pos` is its `f_pos`, which the kernel sets to 0 on open. */
  class File {
    var pos: int

    constructor ()
      ensures pos == 0
    {
      pos := 0;
    }
  }

  /** The driver's static `pcd` object and its file operations. */
  class Device {
    /** pcd.buffer: the device memory, updated in place by write. */
    const buffer: array<byte>

    ghost predicate Valid() {
      buffer.Length == MemSize
    }

    /** The static object starts zero-filled. */
    constructor ()
      ensures Valid() && fresh(buffer)
      ensures forall i :: 0 <= i < MemSize ==> buffer[i] == 0
    {
      buffer := new byte[MemSize](_ => 0);
    }

    /** pcd_open: always succeeds and changes nothing. */
    method Open(f: File) returns (rc: int)
      ensures rc == 0
    {
      rc := 0;
    }

    /** pcd_release: always succeeds and changes nothing. */
    method Release(f: File) returns (rc: int)
      ensures rc == 0
    {
      rc := 0;
    }

    /** pcd_read: `data` is what reaches the user region. */
    method Read(f: File, count: nat, fault: bool) returns (ret: Outcome, data: seq<byte>)
      requires Valid() && ValidPos(f.pos)
      modifies f
      ensures unchanged(buffer)
      ensures ReadResult(ret, data, f.pos) == ReadSpec(old(buffer[..]), old(f.pos), count, fault)
    {
      var n := Clamp(f.pos, count);
      if CopyFaults(fault, n) {
        return Err(EFAULT), [];
      }
      data := buffer[f.pos..f.pos + n];
      f.pos := f.pos + n;
      ret := Ok(n);
    }

    /** pcd_write: `src` is the user region of `count` bytes. A faulting copy
        zero-fills the clamped window of the buffer, as copy_from_user does. */
    method Write(f: File, src: seq<byte>, fault: bool) returns (ret: Outcome)
      requires Valid() && ValidPos(f.pos)
      modifies f, buffer
      ensures WriteResult(ret, buffer[..], f.pos) == WriteSpec(old(buffer[..]), old(f.pos), src, fault)
    {
      var n := Clamp(f.pos, |src|);
      if n == 0 {
        return Err(ENOMEM);
      }
      var p := f.pos;
      if CopyFaults(fault, n) {
        forall i | p <= i < p + n {
          buffer[i] := 0;
        }
        assert buffer[..] == old(buffer[..])[..p] + seq(n, _ => 0) + old(buffer[..])[p + n..];
        return Err(EFAULT);
      }
      forall i | p <= i < p + n {
        buffer[i] := src[i - p];
      }
      assert buffer[..] == old(buffer[..])[..p] + src[..n] + old(buffer[..])[p + n..];
      f.pos := p + n;
      ret := Ok(n);
    }

    /** pcd_lseek. */
    method Lseek(f: File, offset: int, whence: int) returns (ret: Outcome)
      requires ValidPos(f.pos)
      modifies f
      ensures SeekResult(ret, f.pos) == LseekSpec(old(f.pos), offset, whence)
    {
      if whence == SeekSet {
        if offset > MemSize || offset < 0 {
          return Err(EINVAL);
        }
        f.pos := offset;
      } else if whence == SeekCur {
        var temp := f.pos + offset;
        if temp > MemSize || temp < 0 {
          return Err(EINVAL);
        }
        f.pos := temp;
      } else if whence == SeekEnd {
        var temp := MemSize + offset;
        if temp > MemSize || temp < 0 {
          return Err(EINVAL);
        }
        f.pos := temp;
      } else {
        return Err(EINVAL);
      }
      ret := Ok(f.pos);
    }
  }

  /** A client of the driver: write 600 bytes from the start of a fresh
      device, then one more byte, seek back to the start and read 512 bytes. */
  method FillSeekReadBack(src: seq<byte>)
    returns (w1: Outcome, w2: Outcome, s: Outcome, r: Outcome, data: seq<byte>)
    requires |src| == 600
    ensures w1 == Ok(MemSize) && w2 == Err(ENOMEM)
    ensures s == Ok(0) && r == Ok(MemSize) && data == src[..MemSize]
  {
    var dev := new Device();
    var f := new File();
    var rc := dev.Open(f);
    w1 := dev.Write(f, src, false);
    w2 := dev.Write(f, [0], false);
    s := dev.Lseek(f, 0, SeekSet);
    r, data := dev.Read(f, MemSize, false);
    rc := dev.Release(f);
  }
}
