/**
 * Message framing over a byte stream (internal/app/readwrite.go).
 *
 * A frame is the payload followed by one sentinel byte `\n`. `Write` pushes
 * the payload through the connection in chunks of at most `TcpBuffSize`
 * bytes, re-slicing after every partial write, then sends the sentinel.
 * `Read` appends incoming chunks until one ends with the sentinel and returns
 * the accumulated bytes without it.
 */
module Framing {
  import opened Net

  const TcpBuffSize := 2048
  const Newline: byte := 10

  function Min(x: int, y: int): (m: int)
    ensures m <= x && m <= y
    ensures m == x || m == y
  {
    if x < y then x else y
  }

  /** The framing precondition on a payload: it does not contain the sentinel. */
  predicate NoNewline(data: Bytes)
  {
    Newline !in data
  }

  // ---------------------------------------------------------------------------
  // Writing
  // ---------------------------------------------------------------------------

  datatype WriteRun = WriteRun(state: ConnState, err: Option<IoError>)

  /**
   * What the chunk loop leaves behind when it started from `s` with `data`:
   * the earlier log of offered buffers kept, a prefix of
   * `data` accepted (all of it exactly when no error is reported), and a
   * suffix of the write script left.
   */
  predicate ChunkLoopEffect(s: ConnState, data: Bytes, r: WriteRun)
  {
    && |s.offered| <= |r.state.offered| && r.state.offered[..|s.offered|] == s.offered
    && |s.wire| <= |r.state.wire| <= |s.wire| + |data|
    && r.state.wire == s.wire + data[..|r.state.wire| - |s.wire|]
    && (r.err.None? <==> |r.state.wire| == |s.wire| + |data|)
    && |r.state.accepts| <= |s.accepts|
    && r.state.accepts == s.accepts[|s.accepts| - |r.state.accepts|..]
  }

  /** One accepted chunk followed by the rest of the loop is the loop. */
  lemma ChunkLoopStep(s: ConnState, data: Bytes, size: nat, w: WriteReply, r: WriteRun)
    requires 0 < size == Min(TcpBuffSize, |data|)
    requires w == WriteOnce(s, data[..size]) && w.err.None?
    requires ChunkLoopEffect(w.state, data[w.n..], r)
    ensures ChunkLoopEffect(s, data, r)
  {
    var m := |r.state.wire| - |w.state.wire|;
    assert data[..w.n] + data[w.n..][..m] == data[..w.n + m];
    assert s.accepts[1..][|s.accepts| - 1 - |r.state.accepts|..]
        == s.accepts[|s.accepts| - |r.state.accepts|..];
    assert r.state.offered[..|s.offered|] == r.state.offered[..|w.state.offered|][..|s.offered|];
  }

  /**
   * The chunk loop: offer at most `TcpBuffSize` bytes, drop what was accepted,
   * repeat until nothing is left; the first write error ends the loop.
   */
  function SendChunks(s: ConnState, data: Bytes): (r: WriteRun)
    ensures r.state.deliveries == s.deliveries && r.state.deadlineFault == s.deadlineFault
    ensures r.state.closed == s.closed
    ensures ChunkLoopEffect(s, data, r)
    ensures data == [] ==> r == WriteRun(s, None)
    decreases |s.accepts|
  {
    var size := Min(TcpBuffSize, |data|);
    if size == 0 then WriteRun(s, None)
    else
      var w := WriteOnce(s, data[..size]);
      if w.err.Some? then WriteRun(w.state, w.err)
      else
        var r := SendChunks(w.state, data[w.n..]);
        ChunkLoopStep(s, data, size, w, r);
        r
  }

  /** The whole of `Write`: the chunk loop, then the sentinel unless the loop failed. */
  function FramedWrite(s: ConnState, data: Bytes): (r: WriteRun)
    ensures r.state.deliveries == s.deliveries && r.state.deadlineFault == s.deadlineFault
    ensures r.state.closed == s.closed
    ensures |s.offered| <= |r.state.offered| && r.state.offered[..|s.offered|] == s.offered
    ensures r.err.None? ==> r.state.wire == s.wire + data || r.state.wire == s.wire + data + [Newline]
    ensures r.err.Some? ==>
      |s.wire| <= |r.state.wire| <= |s.wire| + |data| && r.state.wire == s.wire + data[..|r.state.wire| - |s.wire|]
    ensures data == [] ==> r.state.offered == s.offered + [[Newline]]
  {
    var c := SendChunks(s, data);
    if c.err.Some? then c
    else
      var w := WriteOnce(c.state, [Newline]);
      assert c.state.wire == s.wire + data;
      WriteRun(w.state, w.err)
  }

  /** The buffers offered from the `k`-th on are each non-empty and at most `TcpBuffSize` bytes. */
  predicate OffersBounded(offered: seq<Bytes>, k: nat)
  {
    forall i | k <= i < |offered| :: 0 < |offered[i]| <= TcpBuffSize
  }

  /** Every buffer the chunk loop offers is one chunk of 1..`TcpBuffSize` bytes. */
  lemma {:induction false} SendChunksOffersBounded(s: ConnState, data: Bytes)
    ensures OffersBounded(SendChunks(s, data).state.offered, |s.offered|)
    decreases |s.accepts|
  {
    var size := Min(TcpBuffSize, |data|);
    if size > 0 {
      var w := WriteOnce(s, data[..size]);
      if w.err.None? {
        SendChunksOffersBounded(w.state, data[w.n..]);
        var r := SendChunks(w.state, data[w.n..]);
        assert r.state.offered[|s.offered|] == r.state.offered[..|w.state.offered|][|s.offered|];
      }
    }
  }

  /** `Write` offers chunks of 1..`TcpBuffSize` bytes, the sentinel included. */
  lemma FramedWriteOffersBounded(s: ConnState, data: Bytes)
    ensures OffersBounded(FramedWrite(s, data).state.offered, |s.offered|)
  {
    SendChunksOffersBounded(s, data);
    var c := SendChunks(s, data);
    if c.err.None? {
      var w := WriteOnce(c.state, [Newline]);
      assert w.state.offered == c.state.offered + [[Newline]];
    }
  }

  /** Every outcome in `steps` is an accepted write (of any length). */
  predicate AllAccept(steps: seq<WriteStep>)
  {
    forall i | 0 <= i < |steps| :: steps[i].Accept?
  }

  /**
   * How a run of writes from `s` ended in `r`: one `conn.Write` per outcome
   * consumed, and every consumed outcome accepted, when no error is returned.
   * An error is the failing write's own: either the first failing outcome,
   * consumed last and after accepted writes only, or `Reset` from a write
   * made once the outcomes ran out; no write follows it.
   */
  predicate StopsAtFirstFailure(s: ConnState, r: WriteRun)
  {
    var used := |s.accepts| - |r.state.accepts|;
    && 0 <= used
    && (r.err.None? ==> |r.state.offered| == |s.offered| + used && AllAccept(s.accepts[..used]))
    && (r.err.Some? ==>
          || (&& r.state.accepts == [] && r.err == Some(Reset)
              && |r.state.offered| == |s.offered| + used + 1 && AllAccept(s.accepts[..used]))
          || (&& 0 < used && s.accepts[used - 1] == WriteFail(r.err.value)
              && |r.state.offered| == |s.offered| + used && AllAccept(s.accepts[..used - 1])))
  }

  /** A single write that fails ends a run the way `StopsAtFirstFailure` says. */
  lemma FailingWriteStops(s: ConnState, p: Bytes)
    requires WriteOnce(s, p).err.Some?
    ensures var w := WriteOnce(s, p); StopsAtFirstFailure(s, WriteRun(w.state, w.err))
  {
    if s.accepts != [] {
      assert s.accepts[..0] == [];
    }
  }

  /** An accepted write followed by a run that stops at its first failure is such a run. */
  lemma AcceptedWriteStops(s: ConnState, p: Bytes, r: WriteRun)
    requires WriteOnce(s, p).err.None? && StopsAtFirstFailure(WriteOnce(s, p).state, r)
    ensures StopsAtFirstFailure(s, r)
  {
    var w := WriteOnce(s, p);
    var used := |w.state.accepts| - |r.state.accepts|;
    assert s.accepts[0].Accept? && w.state.accepts == s.accepts[1..];
    assert s.accepts[..used + 1] == [s.accepts[0]] + w.state.accepts[..used];
    if 0 < used {
      assert s.accepts[..used] == [s.accepts[0]] + w.state.accepts[..used - 1];
    }
  }

  /**
   * The chunk loop returns the error of the write that failed, and makes no
   * write after it; before it, every write was accepted.
   */
  lemma {:induction false} SendChunksStopsAtFailure(s: ConnState, data: Bytes)
    ensures StopsAtFirstFailure(s, SendChunks(s, data))
    decreases |s.accepts|
  {
    var size := Min(TcpBuffSize, |data|);
    if size == 0 {
      assert s.accepts[..0] == [];
    } else {
      var w := WriteOnce(s, data[..size]);
      if w.err.Some? {
        FailingWriteStops(s, data[..size]);
      } else {
        SendChunksStopsAtFailure(w.state, data[w.n..]);
        AcceptedWriteStops(s, data[..size], SendChunks(w.state, data[w.n..]));
      }
    }
  }

  /**
   * `Write` returns the error of the write that failed, payload chunk or
   * sentinel, and makes no write after it; on success it made one write per
   * outcome consumed, the sentinel's included, each of them accepted.
   */
  lemma FramedWriteStopsAtFailure(s: ConnState, data: Bytes)
    ensures StopsAtFirstFailure(s, FramedWrite(s, data))
  {
    SendChunksStopsAtFailure(s, data);
    var c := SendChunks(s, data);
    if c.err.None? {
      var w := WriteOnce(c.state, [Newline]);
      var used := |s.accepts| - |c.state.accepts|;
      if c.state.accepts != [] {
        assert w.state.accepts == c.state.accepts[1..];
        assert s.accepts[..used + 1] == s.accepts[..used] + [c.state.accepts[0]];
      }
    }
  }

  /** The first `k` write outcomes each accept at least one byte. */
  predicate Accepting(steps: seq<WriteStep>, k: nat)
  {
    k <= |steps| && forall i | 0 <= i < k :: steps[i].Accept? && steps[i].n > 0
  }

  /** Each accepting write takes at least one byte, so `|data|` of them finish the loop. */
  lemma {:induction false} SendChunksCompletes(s: ConnState, data: Bytes)
    requires Accepting(s.accepts, |data|)
    ensures var r := SendChunks(s, data);
      r.err.None? && |s.accepts| - |r.state.accepts| <= |data|
    decreases |data|
  {
    var size := Min(TcpBuffSize, |data|);
    if size > 0 {
      var w := WriteOnce(s, data[..size]);
      assert s.accepts[0].Accept? && s.accepts[0].n > 0;
      assert w.n > 0 && w.err.None? && w.state.accepts == s.accepts[1..];
      SendChunksCompletes(w.state, data[w.n..]);
    }
  }

  lemma AcceptingSuffix(steps: seq<WriteStep>, k: nat, j: nat)
    requires Accepting(steps, k) && j <= k
    ensures Accepting(steps[j..], k - j)
  {
    assert forall i | 0 <= i < k - j :: steps[j..][i] == steps[j + i];
  }

  /**
   * When every write it makes accepts at least one byte, `Write` succeeds and the
   * peer receives exactly the payload followed by one sentinel, using at most
   * `|data| + 1` of the `k` accepting writes.
   */
  lemma WriteDeliversFrame(s: ConnState, data: Bytes, k: nat)
    requires k >= |data| + 1 && Accepting(s.accepts, k)
    ensures var r := FramedWrite(s, data);
      && r.err.None?
      && r.state.wire == s.wire + data + [Newline]
      && Accepting(r.state.accepts, k - |data| - 1)
  {
    AcceptingSuffix(s.accepts, k, k - |data|);
    assert s.accepts[k - |data|..] == s.accepts[..k][k - |data|..] + s.accepts[k..];
    assert Accepting(s.accepts, |data|);
    SendChunksCompletes(s, data);
    var c := SendChunks(s, data);
    var used := |s.accepts| - |c.state.accepts|;
    AcceptingSuffix(s.accepts, k, used);
    assert c.state.accepts[0] == s.accepts[used];
    AcceptingSuffix(c.state.accepts, k - used, 1);
    var w := WriteOnce(c.state, [Newline]);
    assert w.state.accepts == c.state.accepts[1..];
  }

  /** A write error on a payload chunk is returned at once: the sentinel is never offered. */
  lemma WriteErrorSkipsSentinel(s: ConnState, data: Bytes)
    requires SendChunks(s, data).err.Some?
    ensures FramedWrite(s, data) == SendChunks(s, data)
    ensures |FramedWrite(s, data).state.wire| < |s.wire| + |data|
  {
  }

  method WriteChunks(conn: Conn, data: Bytes) returns (err: Option<IoError>)
    modifies conn
    ensures WriteRun(conn.State(), err) == SendChunks(old(conn.State()), data)
  {
    var rest := data;
    while true
      invariant SendChunks(conn.State(), rest) == SendChunks(old(conn.State()), data)
      decreases |conn.accepts|
    {
      var size := Min(TcpBuffSize, |rest|);
      if size == 0 {
        return None;
      }
      var n, e := conn.Write(rest[..size]);
      if e.Some? {
        return e;
      }
      rest := rest[n..];
    }
  }

  method Write(conn: Conn, data: Bytes) returns (err: Option<IoError>)
    modifies conn
    ensures WriteRun(conn.State(), err) == FramedWrite(old(conn.State()), data)
  {
    err := WriteChunks(conn, data);
    if err.Some? {
      return;
    }
    var _, e := conn.Write([Newline]);
    err := e;
  }

  // ---------------------------------------------------------------------------
  // Reading
  // ---------------------------------------------------------------------------

  datatype ReadError =
    | ConnClosed              // end of stream before a sentinel
    | EmptyBuffer             // a read returned no bytes and no error
    | ReadFailed(cause: IoError)
    | DeadlineFailed(cause: IoError)

  datatype ReadRun = ReadRun(state: ConnState, result: Result<Bytes, ReadError>)

  /**
   * The read loop with `out` bytes already accumulated. Reading never writes,
   * and a returned message extends what had been accumulated.
   */
  function Accumulate(s: ConnState, out: Bytes): (r: ReadRun)
    ensures r.state.accepts == s.accepts && r.state.offered == s.offered && r.state.wire == s.wire
    ensures r.state.deadlineFault == s.deadlineFault && r.state.closed == s.closed
    ensures r.result.Success? ==> out <= r.result.value
    decreases Pending(s.deliveries)
  {
    var rd := ReadOnce(s, TcpBuffSize);
    if rd.err == Some(EOF) then ReadRun(rd.state, Failure(ConnClosed))
    else if rd.err.Some? then ReadRun(rd.state, Failure(ReadFailed(rd.err.value.err)))
    else if |rd.chunk| == 0 then ReadRun(rd.state, Failure(EmptyBuffer))
    else if rd.chunk[|rd.chunk| - 1] == Newline then
      ReadRun(rd.state, Success((out + rd.chunk)[..|out| + |rd.chunk| - 1]))
    else Accumulate(rd.state, out + rd.chunk)
  }

  /** The whole of `Read`: set the deadline, then run the loop from nothing. */
  function FramedRead(s: ConnState): (r: ReadRun)
    ensures r.state.accepts == s.accepts && r.state.offered == s.offered && r.state.wire == s.wire
    ensures r.state.closed == s.closed
    ensures s.deadlineFault.Some? ==> r == ReadRun(s, Failure(DeadlineFailed(s.deadlineFault.value)))
  {
    if s.deadlineFault.Some? then ReadRun(s, Failure(DeadlineFailed(s.deadlineFault.value)))
    else Accumulate(s, [])
  }

  /** The read outcomes that deliver `chunks` one by one. */
  function DataSteps(chunks: seq<Bytes>): (steps: seq<ReadStep>)
    ensures |steps| == |chunks|
    ensures forall i | 0 <= i < |chunks| :: steps[i] == Data(chunks[i])
  {
    seq(|chunks|, i requires 0 <= i < |chunks| => Data(chunks[i]))
  }

  function Flatten(chunks: seq<Bytes>): Bytes
  {
    if chunks == [] then [] else chunks[0] + Flatten(chunks[1..])
  }

  /** Chunks as one read can deliver them: none empty, none larger than the buffer. */
  predicate ReadSized(chunks: seq<Bytes>)
  {
    forall i | 0 <= i < |chunks| :: 0 < |chunks[i]| <= TcpBuffSize
  }

  /** No chunk ends with the sentinel. */
  predicate Unterminated(chunks: seq<Bytes>)
    requires ReadSized(chunks)
  {
    forall i | 0 <= i < |chunks| :: chunks[i][|chunks[i]| - 1] != Newline
  }

  lemma DataStepsTail(chunks: seq<Bytes>, tail: seq<ReadStep>)
    requires chunks != []
    ensures (DataSteps(chunks) + tail)[0] == Data(chunks[0])
    ensures (DataSteps(chunks) + tail)[1..] == DataSteps(chunks[1..]) + tail
  {
    assert (DataSteps(chunks) + tail)[1..] == DataSteps(chunks)[1..] + tail;
    assert DataSteps(chunks)[1..] == DataSteps(chunks[1..]);
  }

  /** One delivery of a chunk that ends with the sentinel ends the loop with everything received. */
  lemma AccumulateLastChunk(s: ConnState, out: Bytes, c: Bytes, rest: seq<ReadStep>)
    requires 0 < |c| <= TcpBuffSize && c[|c| - 1] == Newline
    requires s.deliveries == [Data(c)] + rest
    ensures Accumulate(s, out) == ReadRun(s.(deliveries := rest), Success((out + c)[..|out| + |c| - 1]))
  {
    var rd := ReadOnce(s, TcpBuffSize);
    assert rd == ReadReply(s.(deliveries := rest), c, None);
  }

  /** One delivery of a chunk without the sentinel at its end is appended and the loop goes on. */
  lemma AccumulateChunk(s: ConnState, out: Bytes, c: Bytes, rest: seq<ReadStep>)
    requires 0 < |c| <= TcpBuffSize && c[|c| - 1] != Newline
    requires s.deliveries == [Data(c)] + rest
    ensures Accumulate(s, out) == Accumulate(s.(deliveries := rest), out + c)
  {
    var rd := ReadOnce(s, TcpBuffSize);
    assert rd == ReadReply(s.(deliveries := rest), c, None);
  }

  /** Dropping the first chunk keeps the chunks sized and all but the last unterminated. */
  lemma UnterminatedTail(chunks: seq<Bytes>)
    requires |chunks| > 1 && ReadSized(chunks) && Unterminated(chunks[..|chunks| - 1])
    ensures ReadSized(chunks[1..]) && Unterminated(chunks[1..][..|chunks| - 2])
    ensures chunks[0][|chunks[0]| - 1] != Newline
  {
    assert chunks[..|chunks| - 1][0] == chunks[0];
    assert chunks[1..][..|chunks| - 2] == chunks[..|chunks| - 1][1..];
  }

  /** A chunk appended before a read that ends at the sentinel is part of the message. */
  lemma SentinelLater(s: ConnState, out: Bytes, c: Bytes, rest: seq<ReadStep>, tail: seq<ReadStep>, later: Bytes)
    requires Accumulate(s, out) == Accumulate(s.(deliveries := rest), out + c)
    requires var all := out + c + later;
      |all| > 0 && Accumulate(s.(deliveries := rest), out + c) == ReadRun(s.(deliveries := rest).(deliveries := tail), Success(all[..|all| - 1]))
    ensures var all := out + (c + later);
      |all| > 0 && Accumulate(s, out) == ReadRun(s.(deliveries := tail), Success(all[..|all| - 1]))
  {
    assert out + (c + later) == out + c + later;
  }

  /**
   * `Read` returns as soon as a chunk's last byte is the sentinel: the result is
   * everything received so far without that byte, and later deliveries are
   * left unread.
   */
  lemma {:induction false} ReadStopsAtSentinel(s: ConnState, out: Bytes, chunks: seq<Bytes>, tail: seq<ReadStep>)
    requires chunks != [] && ReadSized(chunks)
    requires Unterminated(chunks[..|chunks| - 1])
    requires chunks[|chunks| - 1][|chunks[|chunks| - 1]| - 1] == Newline
    requires s.deliveries == DataSteps(chunks) + tail
    ensures var all := out + Flatten(chunks);
      |all| > 0 && Accumulate(s, out) == ReadRun(s.(deliveries := tail), Success(all[..|all| - 1]))
    decreases |chunks|
  {
    DataStepsTail(chunks, tail);
    var c := chunks[0];
    var rest := DataSteps(chunks[1..]) + tail;
    assert s.deliveries == [Data(c)] + rest;
    assert Flatten(chunks) == c + Flatten(chunks[1..]);
    if |chunks| == 1 {
      assert Flatten(chunks[1..]) == [] && rest == tail;
      assert chunks[|chunks| - 1] == c;
      assert out + Flatten(chunks) == out + c;
      AccumulateLastChunk(s, out, c, tail);
    } else {
      UnterminatedTail(chunks);
      AccumulateChunk(s, out, c, rest);
      ReadStopsAtSentinel(s.(deliveries := rest), out + c, chunks[1..], tail);
      SentinelLater(s, out, c, rest, tail, Flatten(chunks[1..]));
    }
  }

  /**
   * A read that ends in end of stream, an empty delivery or a socket error
   * before any sentinel arrives fails with the matching error, and the bytes
   * accumulated so far are discarded.
   */
  lemma {:induction false} ReadInterrupted(s: ConnState, out: Bytes, chunks: seq<Bytes>, stop: ReadStep, tail: seq<ReadStep>)
    requires ReadSized(chunks) && Unterminated(chunks)
    requires stop == Eof || stop == Data([]) || stop.ReadFail?
    requires s.deliveries == DataSteps(chunks) + [stop] + tail
    ensures Accumulate(s, out).result == Failure(
      match stop
      case Eof => ConnClosed
      case Data(_) => EmptyBuffer
      case ReadFail(e) => ReadFailed(e))
    decreases |chunks|
  {
    if chunks == [] {
      assert s.deliveries[0] == stop;
    } else {
      DataStepsTail(chunks, [stop] + tail);
      assert DataSteps(chunks) + [stop] + tail == DataSteps(chunks) + ([stop] + tail);
      assert DataSteps(chunks[1..]) + ([stop] + tail) == DataSteps(chunks[1..]) + [stop] + tail;
      var rd := ReadOnce(s, TcpBuffSize);
      assert rd.chunk == chunks[0] && rd.err.None?;
      ReadInterrupted(rd.state, out + chunks[0], chunks[1..], stop, tail);
    }
  }

  /**
   * The read loop recovers a payload without sentinel bytes from any split of
   * the frame into deliveries, with `acc` already received.
   */
  lemma {:induction false} AccumulateFrame(s: ConnState, acc: Bytes, payload: Bytes, chunks: seq<Bytes>, tail: seq<ReadStep>)
    requires NoNewline(payload) && ReadSized(chunks) && chunks != []
    requires acc + Flatten(chunks) == payload + [Newline]
    requires s.deliveries == DataSteps(chunks) + tail
    ensures Accumulate(s, acc) == ReadRun(s.(deliveries := tail), Success(payload))
    decreases |chunks|
  {
    DataStepsTail(chunks, tail);
    var c := chunks[0];
    var rd := ReadOnce(s, TcpBuffSize);
    assert rd.chunk == c && rd.err.None?;
    assert rd.state == s.(deliveries := DataSteps(chunks[1..]) + tail);
    var frame := payload + [Newline];
    assert acc + Flatten(chunks) == acc + c + Flatten(chunks[1..]);
    if |chunks| == 1 {
      assert Flatten(chunks[1..]) == [];
      assert acc + c == frame;
      assert (acc + c)[|acc| + |c| - 1] == c[|c| - 1];
      assert frame[|frame| - 1] == Newline;
      assert c[|c| - 1] == Newline;
      assert (acc + c)[..|acc| + |c| - 1] == payload;
    } else {
      assert |Flatten(chunks[1..])| >= |chunks[1]| > 0;
      var last := |acc| + |c| - 1;
      assert last < |payload|;
      assert c[|c| - 1] == frame[last] == payload[last];
      AccumulateFrame(rd.state, acc + c, payload, chunks[1..], tail);
    }
  }

  /** Round trip: however the frame of a payload without `\n` is split, `Read` returns the payload. */
  lemma ReadRoundTrip(s: ConnState, payload: Bytes, chunks: seq<Bytes>, tail: seq<ReadStep>)
    requires NoNewline(payload) && ReadSized(chunks)
    requires Flatten(chunks) == payload + [Newline]
    requires s.deadlineFault.None? && s.deliveries == DataSteps(chunks) + tail
    ensures FramedRead(s) == ReadRun(s.(deliveries := tail), Success(payload))
  {
    assert chunks != [];
    AccumulateFrame(s, [], payload, chunks, tail);
  }

  /**
   * End to end: the bytes one side's `Write` puts on the wire are read back as
   * the same payload by the other side's `Read`, however they are split.
   */
  lemma FramingRoundTrip(w: ConnState, payload: Bytes, r: ConnState, chunks: seq<Bytes>, tail: seq<ReadStep>)
    requires NoNewline(payload) && Accepting(w.accepts, |payload| + 1)
    requires ReadSized(chunks) && Flatten(chunks) == FramedWrite(w, payload).state.wire[|w.wire|..]
    requires r.deadlineFault.None? && r.deliveries == DataSteps(chunks) + tail
    ensures FramedRead(r).result == Success(payload)
  {
    WriteDeliversFrame(w, payload, |payload| + 1);
    assert (w.wire + payload + [Newline])[|w.wire|..] == payload + [Newline];
    ReadRoundTrip(r, payload, chunks, tail);
  }

  method Read(conn: Conn) returns (result: Result<Bytes, ReadError>)
    modifies conn
    ensures ReadRun(conn.State(), result) == FramedRead(old(conn.State()))
  {
    var out: Bytes := [];
    var buf := new byte[TcpBuffSize](_ => 0);
    var dl := conn.SetReadDeadline();
    if dl.Some? {
      return Failure(DeadlineFailed(dl.value));
    }
    while true
      invariant Accumulate(conn.State(), out) == FramedRead(old(conn.State()))
      invariant buf.Length == TcpBuffSize
      decreases Pending(conn.deliveries)
    {
      var n, err := conn.Read(buf);
      if err.Some? {
        if err.value == EOF {
          return Failure(ConnClosed);
        }
        return Failure(ReadFailed(err.value.err));
      }
      if n == 0 {
        return Failure(EmptyBuffer);
      }
      out := out + buf[..n];
      if buf[n - 1] == Newline {
        out := out[..|out| - 1];
        return Success(out);
      }
    }
  }
}
