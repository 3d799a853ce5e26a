/**
 The lazy read-seeker over a remote blob (http_reader.go).

 `Seek` only records an offset; `Read` decides whether the open stream can still be used or has to
 be dropped and reopened with a Range request. The server and the network are parameters of every
 call: `resp` is the reply to the one request the call may have to send.

 The theorem is `Drive`: over every sequence of calls the reader behaves as `MemoryStep` allows,
 that is, as a plain cursor over the content held in memory.
 */
module HttpReadSeeker {
  import opened Options
  import opened Sequences

  const TWO_63 := 0x8000_0000_0000_0000
  const TWO_64 := 0x1_0000_0000_0000_0000

  type int64 = x: int | -TWO_63 <= x < TWO_63

  /** Two's complement wrap-around of the sum of two 64-bit offsets. */
  function Add64(a: int64, b: int64): (r: int64)
    ensures -TWO_63 <= a + b < TWO_63 <==> r == a + b
    ensures a >= 0 ==> (r < 0 <==> a + b < 0 || a + b >= TWO_63)
  {
    var s := a + b;
    if s >= TWO_63 then s - TWO_64 else if s < -TWO_63 then s + TWO_64 else s
  }

  datatype Error =
    | Closed
    | Transport
    | BadStatus
    | WrongCodeForByteRange
    | NoContentRange
    | BadContentRange
    | WrongRangeStart
    | RangeStopsEarly
    | SizeTooLarge
    | LengthUnknown
    | NegativePosition
    | BodyCut
    | EOF
  {
    /** Errors of opening the stream: the request failed or its reply was rejected. */
    predicate FromRequest() {
      !Closed? && !LengthUnknown? && !NegativePosition? && !BodyCut? && !EOF?
    }
  }

  /** The Content-Range header after matching it against its pattern. */
  datatype RangeHeader = Absent | Malformed | Range(start: nat, end: nat, size: nat)

  datatype Response =
    | NoResponse
    | Response(status: int, contentLength: int64, range: RangeHeader, body: seq<byte>)

  const SEEK_START := 0
  const SEEK_CURRENT := 1
  const SEEK_END := 2

  /** The server may fail in any way, but what it labels as content is that part of the content. */
  ghost predicate Faithful(content: seq<byte>, offset: int64, r: Response) {
    r.Response? ==>
      && (offset > 0 && r.status == 206 && r.range.Range? ==>
            && r.range.start <= r.range.end < |content|
            && r.range.size == |content|
            && r.body == content[r.range.start..r.range.end + 1])
      && (offset <= 0 && 200 <= r.status <= 399 ==> r.body == content)
      && (offset <= 0 && r.status == 200 ==> r.contentLength == -1 || r.contentLength == |content|)
  }

  /** A reply of a server that answers every satisfiable request and rejects the others. */
  ghost predicate Exact(content: seq<byte>, offset: int64, r: Response) {
    && Faithful(content, offset, r)
    && r.Response?
    && (offset <= 0 ==> r.status == 200 && r.contentLength == |content|)
    && (0 < offset < |content| ==> r.status == 206 && r.range == Range(offset, |content| - 1, |content|))
    && (0 < offset && |content| <= offset ==> r.status == 416)
  }

  /**
   How the open stream meets one read: how many bytes it has ready, whether it then breaks, and whether
   it reports its end only by a further read.
   */
  datatype Stream = Stream(got: nat, cut: bool, endsLate: bool)

  /** The error of a read of `n` bytes into `room`; a read that had no room or got bytes need not report the end. */
  function ReadError(stream: Stream, room: nat, n: nat, atEnd: bool): Option<Error> {
    if stream.cut then Some(BodyCut)
    else if atEnd && !(stream.endsLate && (n > 0 || room == 0)) then Some(EOF)
    else None
  }

  class HTTPReadSeeker {
    // The bytes the server holds.
    ghost const content: seq<byte>
    // Response bodies opened and not yet closed.
    ghost var openBodies: int

    var size: int64
    // What the open response body has not delivered yet.
    var rc: Option<seq<byte>>
    var readerOffset: int64
    var seekOffset: int64
    var err: Option<Error>

    ghost predicate Valid()
      reads this
    {
      && |content| < TWO_63
      && 0 <= seekOffset
      && openBodies == (if rc.Some? then 1 else 0)
      && (err.Some? ==> rc.None? && err.value == Closed)
      && (rc.Some? && 0 <= readerOffset ==> readerOffset <= |content| && rc.value == content[readerOffset..])
      && (rc.Some? ==> size == -1 || size == |content|)
      && (rc.None? && err.None? ==> readerOffset == seekOffset)
    }

    constructor (ghost bytes: seq<byte>)
      requires |bytes| < TWO_63
      ensures Valid() && content == bytes
      ensures seekOffset == 0 && size == 0 && err.None?
    {
      content := bytes;
      openBodies := 0;
      size, rc, readerOffset, seekOffset, err := 0, None, 0, 0, None;
    }

    method Reset()
      modifies this`rc, this`openBodies
      ensures err.Some? ==> rc == old(rc) && openBodies == old(openBodies)
      ensures err.None? ==>
                rc.None? && openBodies == old(openBodies) - (if old(rc).Some? then 1 else 0)
    {
      if err.Some? {
        return;
      }
      if rc.Some? {
        openBodies := openBodies - 1;
        rc := None;
      }
    }

    /**
     Opens the stream at `readerOffset` unless one is open already. On success the stream stands at
     `readerOffset`, a negative offset counting as zero; on failure nothing has changed.
     */
    method Reader(resp: Response) returns (e: Option<Error>)
      requires |content| < TWO_63
      requires err.None? && rc.None? ==> Faithful(content, readerOffset, resp)
      modifies this`rc, this`size, this`openBodies
      ensures err.Some? ==> e == err && unchanged(this)
      ensures err.None? && old(rc).Some? ==> e.None? && unchanged(this)
      ensures err.None? && old(rc).None? && e.Some? ==>
                unchanged(this) && e.value.FromRequest()
      ensures err.None? && old(rc).None? && e.None? ==>
                && openBodies == old(openBodies) + 1
                && rc.Some?
                && (readerOffset <= 0 ==> rc.value == content)
                && (0 < readerOffset ==> readerOffset < |content| && rc.value == content[readerOffset..])
                && (size == -1 || size == |content|)
                && (0 < readerOffset ==> size == |content|)
      ensures Exact(content, readerOffset, resp) && err.None? && old(rc).None? ==>
                && (e.None? <==> readerOffset <= 0 || readerOffset < |content|)
                && (e.None? ==> size == |content|)
                && (e.Some? ==> e.value == BadStatus)
    {
      if err.Some? {
        return err;
      }
      if rc.Some? {
        return None;
      }
      if resp.NoResponse? {
        return Some(Transport);
      }
      if 200 <= resp.status <= 399 {
        if readerOffset > 0 {
          if resp.status != 206 {
            return Some(WrongCodeForByteRange);
          }
          match resp.range {
            case Absent => return Some(NoContentRange);
            case Malformed => return Some(BadContentRange);
            case Range(start, end, total) =>
              if start != readerOffset {
                return Some(WrongRangeStart);
              }
              if (end + 1) % TWO_64 != total {
                return Some(RangeStopsEarly);
              }
              if total >= TWO_63 {
                return Some(SizeTooLarge);
              }
              size := total;
          }
        } else if resp.status == 200 {
          size := resp.contentLength;
        } else {
          size := -1;
        }
        rc := Some(resp.body);
        openBodies := openBodies + 1;
      } else {
        return Some(BadStatus);
      }
      return None;
    }

    /** The body read of the HTTP client: delivers what is ready and moves the open stream on. */
    method ReadBody(p: array<byte>, stream: Stream) returns (n: nat, e: Option<Error>)
      requires rc.Some?
      modifies this`rc, p
      ensures rc.Some? && n == Min(stream.got, Min(p.Length, |old(rc).value|))
      ensures p[..n] == old(rc).value[..n] && rc.value == old(rc).value[n..]
      ensures e == ReadError(stream, p.Length, n, rc.value == [])
    {
      var body := rc.value;
      n := Min(stream.got, Min(p.Length, |body|));
      for i := 0 to n
        invariant p[..i] == body[..i]
      {
        p[i] := body[i];
      }
      rc := Some(body[n..]);
      e := ReadError(stream, p.Length, n, rc.value == []);
    }

    /** Drops a stream that does not stand at the cursor, and opens one that does. */
    method OpenAtCursor(resp: Response) returns (e: Option<Error>)
      requires Valid() && err.None? && Faithful(content, seekOffset, resp)
      modifies this
      ensures Valid() && err.None? && seekOffset == old(seekOffset)
      ensures e.None? ==> rc.Some? && readerOffset == seekOffset <= |content| && rc.value == content[seekOffset..]
      ensures e.Some? ==> e.value.FromRequest()
      ensures Exact(content, seekOffset, resp) && 0 <= old(size) ==> 0 <= size
      ensures Exact(content, seekOffset, resp) && (seekOffset == 0 || seekOffset < |content|) ==> e.None?
    {
      if readerOffset != seekOffset {
        Reset();
      }
      readerOffset := seekOffset;
      e := Reader(resp);
    }

    /**
     Reads into `p` what the open stream has ready. Whatever arrives in `p` is the content at the cursor.
     */
    method Read(p: array<byte>, resp: Response, stream: Stream) returns (n: nat, e: Option<Error>)
      requires Valid()
      requires Faithful(content, seekOffset, resp)
      modifies this, p
      ensures Valid() && err == old(err)
      ensures n <= p.Length && seekOffset == old(seekOffset) + n
      ensures n > 0 ==> old(seekOffset) + n <= |content| && p[..n] == content[old(seekOffset)..old(seekOffset) + n]
      ensures old(err).Some? ==> n == 0 && e == old(err)
      ensures e == Some(EOF) ==> seekOffset == |content|
      ensures old(err).None? && e.Some? ==> e.value.FromRequest() || e.value.BodyCut? || e.value.EOF?
      ensures Exact(content, old(seekOffset), resp) && 0 <= old(size) ==> 0 <= size
      ensures && Exact(content, old(seekOffset), resp) && old(err).None?
              && (old(seekOffset) == 0 || old(seekOffset) < |content|) ==>
                && n == Min(stream.got, Min(p.Length, |content| - old(seekOffset)))
                && e == ReadError(stream, p.Length, n, seekOffset == |content|)
    {
      if err.Some? {
        return 0, err;
      }
      e := OpenAtCursor(resp);
      if e.Some? {
        return 0, e;
      }
      n, e := ReadBody(p, stream);
      seekOffset := seekOffset + n;
      readerOffset := readerOffset + n;
    }

    /** Moves the cursor as a seeker in memory would, or fails and leaves it where it was. */
    method Seek(offset: int64, whence: int, resp: Response) returns (pos: int64, e: Option<Error>)
      requires Valid()
      requires Faithful(content, if whence == SEEK_START then offset else seekOffset, resp)
      modifies this
      ensures Valid() && err == old(err)
      ensures old(err).Some? ==> pos == 0 && e == old(err) && seekOffset == old(seekOffset)
      ensures old(err).None? ==>
                || (pos, e, seekOffset) == MemorySeek(|content|, old(seekOffset), offset, whence)
                || (&& pos == 0 && e.Some? && seekOffset == old(seekOffset)
                    && (e.value.FromRequest() || (e.value.LengthUnknown? && whence == SEEK_END)))
      ensures Exact(content, if whence == SEEK_START then offset else old(seekOffset), resp) && 0 <= old(size) ==>
                0 <= size
      ensures && Exact(content, if whence == SEEK_START then offset else old(seekOffset), resp)
              && old(err).None? && 0 <= old(size)
              && Satisfiable(|content|, old(seekOffset), offset, whence) ==>
                (pos, e, seekOffset) == MemorySeek(|content|, old(seekOffset), offset, whence)
    {
      if err.Some? {
        return 0, err;
      }
      e := OpenForSeek(if whence == SEEK_START then offset else seekOffset, resp);
      if e.Some? {
        return 0, e;
      }
      pos, e := MoveCursor(offset, whence);
    }

    /**
     The first half of Seek: there is a stream, opened at `start` if there was none, or nothing has
     changed. Unless the seek is to an absolute position `start` is the cursor, where a new stream would
     be opened anyway.
     */
    method OpenForSeek(start: int64, resp: Response) returns (e: Option<Error>)
      requires Valid() && err.None? && Faithful(content, start, resp)
      modifies this
      ensures Valid() && err.None? && seekOffset == old(seekOffset)
      ensures e.Some? ==> e.value.FromRequest() && size == old(size)
      ensures e.None? ==> rc.Some?
      ensures Exact(content, start, resp) && 0 <= old(size) ==> 0 <= size
      ensures Exact(content, start, resp) && (start <= 0 || start < |content|) ==> e.None?
    {
      var lastReaderOffset := readerOffset;
      if rc.None? {
        readerOffset := start;
      }
      e := Reader(resp);
      if e.Some? {
        readerOffset := lastReaderOffset;
      }
    }

    /** The second half of Seek: from here on the server has no say. */
    method MoveCursor(offset: int64, whence: int) returns (pos: int64, e: Option<Error>)
      requires 0 <= seekOffset && |content| < TWO_63 && (size == -1 || size == |content|)
      modifies this`seekOffset
      ensures 0 <= seekOffset
      ensures whence == SEEK_END && size < 0 ==> pos == 0 && e == Some(LengthUnknown) && seekOffset == old(seekOffset)
      ensures !(whence == SEEK_END && size < 0) ==>
                (pos, e, seekOffset) == MemorySeek(|content|, old(seekOffset), offset, whence)
    {
      e := None;
      var newOffset := seekOffset;
      if whence == SEEK_CURRENT {
        newOffset := Add64(newOffset, offset);
      } else if whence == SEEK_END {
        if size < 0 {
          return 0, Some(LengthUnknown);
        }
        newOffset := Add64(size, offset);
      } else if whence == SEEK_START {
        newOffset := offset;
      }
      if newOffset < 0 {
        e := Some(NegativePosition);
      } else {
        seekOffset := newOffset;
      }
      return seekOffset, e;
    }

    method Close() returns (e: Option<Error>)
      requires Valid()
      modifies this
      ensures Valid() && rc.None? && err == Some(Closed) && openBodies == 0
      ensures e == old(err) && seekOffset == old(seekOffset) && size == old(size)
    {
      if err.Some? {
        return err;
      }
      if rc.Some? {
        openBodies := openBodies - 1;
      }
      rc := None;
      err := Some(Closed);
      return None;
    }
  }

  function Min(a: int, b: int): int {
    if a < b then a else b
  }

  // ---------------------------------------------------------------------------------------------
  // The reference: a cursor over the content in memory
  // ---------------------------------------------------------------------------------------------

  /** Seeking in a blob of `length` bytes: the returned position, the error and the new cursor. */
  function MemorySeek(length: nat, cursor: nat, offset: int64, whence: int): (int, Option<Error>, nat) {
    var target :=
      if whence == SEEK_CURRENT then cursor + offset
      else if whence == SEEK_END then length + offset
      else if whence == SEEK_START then offset
      else cursor;
    if 0 <= target < TWO_63 then (target, None, target) else (cursor, Some(NegativePosition), cursor)
  }

  /** Whether the one request a seek may have to send asks for bytes that exist. */
  predicate Satisfiable(length: nat, cursor: int, offset: int64, whence: int) {
    var start := if whence == SEEK_START then offset else cursor;
    start <= 0 || start < length
  }

  datatype Memory = Memory(cursor: nat, closed: bool)

  datatype Op =
    | DoRead(room: nat, answer: Server, stream: Stream)
    | DoSeek(offset: int64, whence: int, answer: Server)
    | DoClose

  datatype Outcome =
    | ReadOut(bytes: seq<byte>, err: Option<Error>)
    | SeekOut(pos: int, err: Option<Error>)
    | CloseOut(err: Option<Error>)

  /** What the server replies when asked for the content from an offset on. */
  type Server = int64 -> Response

  ghost predicate ServedBy(content: seq<byte>, op: Op) {
    !op.DoClose? ==> forall offset: int64 :: Faithful(content, offset, op.answer(offset))
  }

  ghost predicate ServedExactly(content: seq<byte>, op: Op) {
    !op.DoClose? ==> forall offset: int64 :: Exact(content, offset, op.answer(offset))
  }

  /**
   One call on the seeker in memory. Losing the connection or an unsatisfiable request may make a
   call fail without effect; `exact` says that the server answered every request exactly so far,
   and then the calls that may fail are known from the cursor and the length alone.
   */
  ghost predicate MemoryStep(content: seq<byte>, exact: bool, m: Memory, op: Op, out: Outcome, m': Memory) {
    match op
    case DoRead(room, _, stream) =>
      && out.ReadOut?
      && m' == m.(cursor := m.cursor + |out.bytes|)
      && |out.bytes| <= room
      && (m.closed ==> out == ReadOut([], Some(Closed)))
      && (out.bytes != [] ==> m.cursor + |out.bytes| <= |content|
                              && out.bytes == content[m.cursor..m.cursor + |out.bytes|])
      && (out.err == Some(EOF) ==> m'.cursor == |content|)
      && (exact && !m.closed && (m.cursor == 0 || m.cursor < |content|) ==>
            && |out.bytes| == Min(stream.got, Min(room, |content| - m.cursor))
            && out.err == ReadError(stream, room, |out.bytes|, m'.cursor == |content|))
    case DoSeek(offset, whence, _) =>
      && out.SeekOut?
      && (m.closed ==> out == SeekOut(0, Some(Closed)) && m' == m)
      && (!m.closed ==>
            var (pos, err, cursor) := MemorySeek(|content|, m.cursor, offset, whence);
            var asInMemory := out == SeekOut(pos, err) && m' == m.(cursor := cursor);
            && (asInMemory || (out.pos == 0 && out.err.Some? && m' == m))
            && (exact && Satisfiable(|content|, m.cursor, offset, whence) ==> asInMemory))
    case DoClose =>
      out == CloseOut(if m.closed then Some(Closed) else None) && m' == m.(closed := true)
  }

  ghost predicate AllExact(content: seq<byte>, ops: seq<Op>, n: nat)
    requires n <= |ops|
  {
    forall j :: 0 <= j < n ==> ServedExactly(content, ops[j])
  }

  /** The first `n` calls with their results form a run of the seeker in memory through `ms`. */
  ghost predicate MemoryRun(content: seq<byte>, ops: seq<Op>, outs: seq<Outcome>, ms: seq<Memory>, n: nat)
    requires n <= |outs| && n <= |ops| && n < |ms|
  {
    && ms[0] == Memory(0, false)
    && forall i {:trigger ops[i]} :: 0 <= i < n ==>
         MemoryStep(content, AllExact(content, ops, i + 1), ms[i], ops[i], outs[i], ms[i + 1])
  }

  /** The cursor and state a caller of the reader can observe. */
  ghost function View(hrs: HTTPReadSeeker): Memory
    requires hrs.Valid()
    reads hrs
  {
    Memory(hrs.seekOffset, hrs.err.Some?)
  }

  /** One call on the reader is a step of the seeker in memory. */
  method Call(hrs: HTTPReadSeeker, op: Op) returns (out: Outcome)
    requires hrs.Valid()
    requires ServedBy(hrs.content, op)
    modifies hrs
    ensures hrs.Valid()
    ensures MemoryStep(hrs.content, ServedExactly(hrs.content, op) && 0 <= old(hrs.size), old(View(hrs)), op, out,
                       View(hrs))
    ensures ServedExactly(hrs.content, op) && 0 <= old(hrs.size) ==> 0 <= hrs.size
  {
    match op {
      case DoRead(room, answer, stream) =>
        var p := new byte[room];
        var n, e := hrs.Read(p, answer(hrs.seekOffset), stream);
        out := ReadOut(p[..n], e);
      case DoSeek(offset, whence, answer) =>
        var pos, e := hrs.Seek(offset, whence, answer(if whence == SEEK_START then offset else hrs.seekOffset));
        out := SeekOut(pos, e);
      case DoClose =>
        var e := hrs.Close();
        out := CloseOut(e);
    }
  }

  /** Every sequence of calls on a fresh reader is a run of the seeker in memory. */
  method Drive(ghost content: seq<byte>, ops: seq<Op>) returns (outs: seq<Outcome>, ghost ms: seq<Memory>)
    requires |content| < TWO_63
    requires forall i :: 0 <= i < |ops| ==> ServedBy(content, ops[i])
    ensures |outs| == |ops| && |ms| == |ops| + 1
    ensures MemoryRun(content, ops, outs, ms, |ops|)
  {
    var hrs := new HTTPReadSeeker(content);
    outs, ms := [], [Memory(0, false)];
    for k := 0 to |ops|
      invariant fresh(hrs) && hrs.Valid() && hrs.content == content
      invariant |outs| == k && |ms| == k + 1
      invariant ms[k] == View(hrs)
      invariant AllExact(content, ops, k) ==> 0 <= hrs.size
      invariant MemoryRun(content, ops, outs, ms, k)
    {
      var out := Call(hrs, ops[k]);
      assert AllExact(content, ops, k + 1) <==> AllExact(content, ops, k) && ServedExactly(content, ops[k]);
      WeakerStep(content, ms[k], ops[k], out, View(hrs));
      ExtendRun(content, ops, outs, ms, out, View(hrs));
      outs, ms := outs + [out], ms + [View(hrs)];
    }
  }

  lemma ExtendRun(content: seq<byte>, ops: seq<Op>, outs: seq<Outcome>, ms: seq<Memory>, out: Outcome, m: Memory)
    requires |outs| < |ops| && |ms| == |outs| + 1
    ensures MemoryRun(content, ops, outs, ms, |outs|)
            && MemoryStep(content, AllExact(content, ops, |outs| + 1), ms[|outs|], ops[|outs|], out, m) ==>
              MemoryRun(content, ops, outs + [out], ms + [m], |outs| + 1)
  {
    if MemoryRun(content, ops, outs, ms, |outs|)
       && MemoryStep(content, AllExact(content, ops, |outs| + 1), ms[|outs|], ops[|outs|], out, m) {
      forall i | 0 <= i < |outs| + 1
        ensures MemoryStep(content, AllExact(content, ops, i + 1), (ms + [m])[i], ops[i], (outs + [out])[i],
                           (ms + [m])[i + 1])
      {
        if i < |outs| {
          assert (ms + [m])[i] == ms[i] && (ms + [m])[i + 1] == ms[i + 1] && (outs + [out])[i] == outs[i];
        }
      }
    }
  }

  /** What holds of an exact server holds all the more when exactness is not assumed. */
  lemma WeakerStep(content: seq<byte>, m: Memory, op: Op, out: Outcome, m': Memory)
    ensures MemoryStep(content, true, m, op, out, m') ==> MemoryStep(content, false, m, op, out, m')
  {
  }

  /** The three ways to seek count from the start, the cursor and the end; any other stays. */
  lemma SeekMeans(length: nat, cursor: nat, offset: int64, target: nat)
    requires target < TWO_63
    ensures offset == target ==> MemorySeek(length, cursor, offset, 0) == (target, None, target)
    ensures cursor + offset == target ==> MemorySeek(length, cursor, offset, 1) == (target, None, target)
    ensures length + offset == target ==> MemorySeek(length, cursor, offset, 2) == (target, None, target)
    ensures offset < 0 ==> MemorySeek(length, cursor, offset, 0) == (cursor, Some(NegativePosition), cursor)
  {
  }

  /** What is read after a seek that succeeded is the content at the position it returned. */
  lemma ReadAfterSeek(content: seq<byte>, ops: seq<Op>, outs: seq<Outcome>, ms: seq<Memory>, i: nat)
    requires |outs| == |ops| && |ms| == |ops| + 1 && MemoryRun(content, ops, outs, ms, |ops|) && i + 1 < |ops|
    requires ops[i].DoSeek? && outs[i].SeekOut? && outs[i].err == None && ops[i + 1].DoRead?
    requires outs[i + 1].ReadOut? && outs[i + 1].bytes != []
    ensures var pos, bytes := outs[i].pos, outs[i + 1].bytes;
            && 0 <= pos && pos + |bytes| <= |content| && bytes == content[pos..pos + |bytes|]
            && (ops[i].whence == 0 ==> pos == ops[i].offset)
            && (ops[i].whence == 2 ==> pos == |content| + ops[i].offset)
  {
    var exact, exactStill := AllExact(content, ops, i + 1), AllExact(content, ops, i + 2);
    assert MemoryStep(content, exact, ms[i], ops[i], outs[i], ms[i + 1]);
    assert MemoryStep(content, exactStill, ms[i + 1], ops[i + 1], outs[i + 1], ms[i + 2]);
    SeekThenRead(content, exact, exactStill, ms[i], ops[i], outs[i], ms[i + 1], ops[i + 1], outs[i + 1], ms[i + 2]);
  }

  lemma SeekThenRead(content: seq<byte>, exact: bool, exactStill: bool, m: Memory, seek: Op, out: Outcome, m': Memory,
                     read: Op, out': Outcome, m'': Memory)
    requires MemoryStep(content, exact, m, seek, out, m') && MemoryStep(content, exactStill, m', read, out', m'')
    requires seek.DoSeek? && out.SeekOut? && out.err == None && read.DoRead? && out'.ReadOut? && out'.bytes != []
    ensures var pos, bytes := out.pos, out'.bytes;
            && 0 <= pos && pos + |bytes| <= |content| && bytes == content[pos..pos + |bytes|]
            && (seek.whence == 0 ==> pos == seek.offset)
            && (seek.whence == 2 ==> pos == |content| + seek.offset)
  {
  }

  /** A read that finds nothing left reports the end, one that leaves something reports nothing, unless it is cut. */
  lemma EndIsReported(stream: Stream, room: nat, n: nat)
    requires !stream.cut
    ensures room > 0 ==> ReadError(stream, room, 0, true) == Some(EOF)
    ensures !stream.endsLate ==> ReadError(stream, room, n, true) == Some(EOF)
    ensures ReadError(stream, room, n, false) == None
  {
  }
}
