/**
 * The gatekeeper's connection handler and its own I/O helpers
 * (internal/app/server/server.go: `handle`, `write`, `read`, `min`).
 *
 * `handle` draws a challenge, sends its encoding, reads the peer's answer,
 * sends either the protected resource or the denial message, and closes the
 * connection. Its helpers differ from the framing helpers: `write` sends no
 * sentinel, and `read` reads until a read delivers nothing and then returns
 * its whole 2048-byte buffer. The members below follow the code as written.
 * The `Intended` members at the end state the exchange the client expects:
 * client.go sends the token itself, framed, and reads the verdict with the
 * framed `Read`. The lemmas beside them show where the two part.
 */
module ServerApp {
  import opened Net
  import opened Framing
  import opened ChallengeEntity

  /** The message sent when the answer does not match. */
  const AccessDenied := Ascii("Error: access denied")

  lemma AccessDeniedBytes()
    ensures |AccessDenied| == 20
    ensures NoNewline(AccessDenied)
  {
    assert AccessDenied == [69, 114, 114, 111, 114, 58, 32, 97, 99, 99, 101, 115, 115, 32,
                            100, 101, 110, 105, 101, 100] by {
      assert "Error: access denied" == ['E', 'r', 'r', 'o', 'r', ':', ' ', 'a', 'c', 'c', 'e', 's', 's', ' ',
                                        'd', 'e', 'n', 'i', 'e', 'd'];
    }
  }

  /** The challenge message before encoding: the hash method's name, the set, and the hash of the choice. */
  datatype Request = Request(hashMethod: Bytes, tokens: seq<Bytes>, answer: Bytes)

  const HashMethod := Ascii("SHA1")

  /** The challenge message: it offers the set and a hash that some token of the set has, when the challenge is well formed. */
  function NewRequest(c: Challenge, digest: Bytes -> Bytes): (r: Request)
    ensures r.hashMethod == HashMethod && |r.hashMethod| == 4
    ensures WellFormed(c) ==> exists i | 0 <= i < |r.tokens| :: digest(r.tokens[i]) == r.answer
  {
    Request(HashMethod, c.Set(), c.Hash(digest))
  }

  datatype HandleError =
    | EncodeFailed(reason: string)             // "encode error"
    | ChallengeWriteFailed(cause: IoError)     // "socket write error"
    | AnswerReadFailed(readError: ReadError)   // the read's own error, returned as is
    | VerdictWriteFailed(cause: IoError)       // the last write's own error, returned as is

  // ---------------------------------------------------------------------------
  // write
  // ---------------------------------------------------------------------------

  /**
   * The server's `write` is the chunk loop alone. When every write accepts at
   * least one byte the peer receives exactly `data`, with no sentinel after it.
   */
  lemma ServerWriteUnframed(s: ConnState, data: Bytes)
    requires Accepting(s.accepts, |data|)
    ensures var r := SendChunks(s, data);
      r.err.None? && r.state.wire == s.wire + data
      && |r.state.offered| - |s.offered| <= |data|
  {
    SendChunksCompletes(s, data);
    SendChunksStopsAtFailure(s, data);
  }

  /** `write`: the chunk loop shared with the framing helper, without the sentinel. */
  method Write(conn: Conn, data: Bytes) returns (err: Option<IoError>)
    modifies conn
    ensures WriteRun(conn.State(), err) == SendChunks(old(conn.State()), data)
  {
    err := WriteChunks(conn, data);
  }

  // ---------------------------------------------------------------------------
  // read
  // ---------------------------------------------------------------------------

  function Zeros(n: nat): (z: Bytes)
    ensures |z| == n && forall i | 0 <= i < n :: z[i] == 0
  {
    seq(n, _ => 0)
  }

  /**
   * The read loop over the buffer `buf`: every read overwrites a prefix of it;
   * a read that delivers nothing, at end of stream or not, ends the loop with
   * the whole buffer; any other error ends it with that error.
   */
  function Drain(s: ConnState, buf: Bytes): (r: ReadRun)
    requires |buf| == TcpBuffSize
    ensures r.state.accepts == s.accepts && r.state.offered == s.offered && r.state.wire == s.wire
    ensures r.state.deadlineFault == s.deadlineFault && r.state.closed == s.closed
    ensures r.result.Success? ==> |r.result.value| == TcpBuffSize
    ensures r.result.Failure? ==> r.result.error.ReadFailed?
    ensures s.deliveries != [] && s.deliveries[0] == Eof ==> r == ReadRun(s, Success(buf))
    decreases Pending(s.deliveries)
  {
    var rd := ReadOnce(s, TcpBuffSize);
    if rd.err.Some? && rd.err.value.NetFailure? then ReadRun(rd.state, Failure(ReadFailed(rd.err.value.err)))
    else if |rd.chunk| == 0 then ReadRun(rd.state, Success(buf))
    else Drain(rd.state, rd.chunk + buf[|rd.chunk|..])
  }

  /** The whole of the server's `read`: set the deadline, then drain into a zeroed buffer. */
  function ServerRead(s: ConnState): (r: ReadRun)
    ensures r.state.accepts == s.accepts && r.state.offered == s.offered && r.state.wire == s.wire
    ensures r.state.closed == s.closed
    ensures r.result.Success? ==> |r.result.value| == TcpBuffSize
    ensures s.deadlineFault.Some? ==> r == ReadRun(s, Failure(DeadlineFailed(s.deadlineFault.value)))
  {
    if s.deadlineFault.Some? then ReadRun(s, Failure(DeadlineFailed(s.deadlineFault.value)))
    else Drain(s, Zeros(TcpBuffSize))
  }

  /**
   * Whatever arrives, a successful `read` returns all 2048 bytes of its buffer:
   * the last chunk received, then what earlier chunks or the initial zeros left
   * behind it. Here: chunks of data, then a delivery of nothing.
   */
  lemma {:induction false} DrainKeepsLastChunk(s: ConnState, buf: Bytes, chunks: seq<Bytes>, stop: ReadStep, tail: seq<ReadStep>)
    requires |buf| == TcpBuffSize && ReadSized(chunks)
    requires stop == Eof || stop == Data([])
    requires s.deliveries == DataSteps(chunks) + [stop] + tail
    ensures var r := Drain(s, buf);
      && r.result.Success?
      && (chunks == [] ==> r.result.value == buf)
      && (chunks != [] ==> r.result.value[..|chunks[|chunks| - 1]|] == chunks[|chunks| - 1])
    decreases |chunks|
  {
    if chunks == [] {
      assert s.deliveries[0] == stop;
    } else {
      DataStepsTail(chunks, [stop] + tail);
      assert DataSteps(chunks) + [stop] + tail == DataSteps(chunks) + ([stop] + tail);
      assert DataSteps(chunks[1..]) + ([stop] + tail) == DataSteps(chunks[1..]) + [stop] + tail;
      var rd := ReadOnce(s, TcpBuffSize);
      assert rd.chunk == chunks[0] && rd.err.None?;
      var next := rd.chunk + buf[|rd.chunk|..];
      DrainKeepsLastChunk(rd.state, next, chunks[1..], stop, tail);
      if |chunks| == 1 {
        assert Drain(rd.state, next).result.value == next;
        assert next[..|chunks[0]|] == chunks[0];
      }
    }
  }

  /**
   * An answer that arrives in one piece, followed by end of stream or an empty
   * delivery, is returned padded with zeros to the buffer's size.
   */
  lemma ServerReadPadsAnswer(s: ConnState, answer: Bytes, stop: ReadStep, tail: seq<ReadStep>)
    requires 0 < |answer| <= TcpBuffSize
    requires stop == Eof || stop == Data([])
    requires s.deadlineFault.None? && s.deliveries == [Data(answer), stop] + tail
    ensures ServerRead(s).result == Success(answer + Zeros(TcpBuffSize - |answer|))
  {
    var z := Zeros(TcpBuffSize);
    var rd := ReadOnce(s, TcpBuffSize);
    assert rd.chunk == answer && rd.err.None? && rd.state.deliveries == [stop] + tail;
    var next := answer + z[|answer|..];
    assert z[|answer|..] == Zeros(TcpBuffSize - |answer|);
    assert Drain(s, z) == Drain(rd.state, next);
    var rd2 := ReadOnce(rd.state, TcpBuffSize);
    assert rd2.chunk == [] && (rd2.err.None? || rd2.err == Some(EOF));
    assert Drain(rd.state, next).result == Success(next);
  }

  /**
   * The server's `read` never stops at a sentinel: when the peer sends its
   * answer and then waits without closing, the read runs into the deadline.
   */
  lemma {:induction false} DrainWaitsForSilence(s: ConnState, buf: Bytes, chunks: seq<Bytes>)
    requires |buf| == TcpBuffSize && ReadSized(chunks)
    requires s.deliveries == DataSteps(chunks)
    ensures Drain(s, buf).result == Failure(ReadFailed(Timeout))
    decreases |chunks|
  {
    if chunks != [] {
      DataStepsTail(chunks, []);
      assert DataSteps(chunks) + [] == DataSteps(chunks);
      assert DataSteps(chunks[1..]) + [] == DataSteps(chunks[1..]);
      var rd := ReadOnce(s, TcpBuffSize);
      assert rd.chunk == chunks[0] && rd.err.None?;
      DrainWaitsForSilence(rd.state, rd.chunk + buf[|rd.chunk|..], chunks[1..]);
    }
  }

  /** From a zeroed buffer: the peer sends data and then waits, and `read` times out. */
  lemma ServerReadWaitsForSilence(s: ConnState, chunks: seq<Bytes>)
    requires s.deadlineFault.None? && ReadSized(chunks) && s.deliveries == DataSteps(chunks)
    ensures ServerRead(s).result == Failure(ReadFailed(Timeout))
  {
    DrainWaitsForSilence(s, Zeros(TcpBuffSize), chunks);
  }

  /** A socket error during the drain ends it with that error, whatever came before. */
  lemma {:induction false} DrainFails(s: ConnState, buf: Bytes, chunks: seq<Bytes>, e: IoError, tail: seq<ReadStep>)
    requires |buf| == TcpBuffSize && ReadSized(chunks)
    requires s.deliveries == DataSteps(chunks) + [ReadFail(e)] + tail
    ensures Drain(s, buf).result == Failure(ReadFailed(e))
    decreases |chunks|
  {
    if chunks == [] {
      assert s.deliveries[0] == ReadFail(e);
    } else {
      DataStepsTail(chunks, [ReadFail(e)] + tail);
      assert DataSteps(chunks) + [ReadFail(e)] + tail == DataSteps(chunks) + ([ReadFail(e)] + tail);
      assert DataSteps(chunks[1..]) + ([ReadFail(e)] + tail) == DataSteps(chunks[1..]) + [ReadFail(e)] + tail;
      var rd := ReadOnce(s, TcpBuffSize);
      assert rd.chunk == chunks[0] && rd.err.None?;
      DrainFails(rd.state, rd.chunk + buf[|rd.chunk|..], chunks[1..], e, tail);
    }
  }

  /** `read`: the buffer is allocated once and reused by every read. */
  method Read(conn: Conn) returns (result: Result<Bytes, ReadError>)
    modifies conn
    ensures ReadRun(conn.State(), result) == ServerRead(old(conn.State()))
  {
    var buf := new byte[TcpBuffSize](_ => 0);
    assert buf[..] == Zeros(TcpBuffSize);
    var dl := conn.SetReadDeadline();
    if dl.Some? {
      return Failure(DeadlineFailed(dl.value));
    }
    while true
      invariant buf.Length == TcpBuffSize
      invariant Drain(conn.State(), buf[..]) == ServerRead(old(conn.State()))
      decreases Pending(conn.deliveries)
    {
      ghost var before := buf[..];
      var n, err := conn.Read(buf);
      if err.Some? && err.value.NetFailure? {
        return Failure(ReadFailed(err.value.err));
      }
      if n == 0 {
        assert buf[..] == before;
        return Success(buf[..]);
      }
    }
  }

  // ---------------------------------------------------------------------------
  // handle
  // ---------------------------------------------------------------------------

  /** The message sent after the answer: the resource when it equals the challenge's hash. */
  function Verdict(received: Bytes, c: Challenge, digest: Bytes -> Bytes, resource: Bytes): (v: Bytes)
    ensures v == resource || v == AccessDenied
    ensures received != c.Hash(digest) ==> v == AccessDenied
  {
    if received == c.Hash(digest) then resource else AccessDenied
  }

  /**
   * One run of `handle`: the connection state it leaves, the error it returns,
   * and the verdict it chose, if it got that far. The connection is closed on
   * every path.
   */
  datatype HandleRun = HandleRun(state: ConnState, err: Option<HandleError>, verdict: Option<Bytes>)

  function HandleSpec(s: ConnState, c: Challenge, encode: Request -> Result<Bytes, string>,
                      digest: Bytes -> Bytes, resource: Bytes): (r: HandleRun)
    ensures r.state.closed
  {
    match encode(NewRequest(c, digest))
    case Failure(e) => HandleRun(s.(closed := true), Some(EncodeFailed(e)), None)
    case Success(buf) =>
      var w := SendChunks(s, buf);
      if w.err.Some? then HandleRun(w.state.(closed := true), Some(ChallengeWriteFailed(w.err.value)), None)
      else
        var rd := ServerRead(w.state);
        if rd.result.Failure? then HandleRun(rd.state.(closed := true), Some(AnswerReadFailed(rd.result.error)), None)
        else
          var answer := Verdict(rd.result.value, c, digest, resource);
          var v := SendChunks(rd.state, answer);
          HandleRun(v.state.(closed := true), if v.err.Some? then Some(VerdictWriteFailed(v.err.value)) else None, Some(answer))
  }

  /**
   * The order of the steps: an encode error leaves the connection untouched
   * but closed; a challenge write error returns before any read; a read error
   * returns before any verdict is written, with the wire holding the challenge.
   * Each failing step's own error is the one returned.
   */
  lemma HandleEarlyExits(s: ConnState, c: Challenge, encode: Request -> Result<Bytes, string>,
                         digest: Bytes -> Bytes, resource: Bytes)
    ensures var r := HandleSpec(s, c, encode, digest, resource);
      && (encode(NewRequest(c, digest)).Failure? ==> r.state == s.(closed := true) && r.verdict.None?)
      && (r.err.Some? && r.err.value.ChallengeWriteFailed? ==> r.state.deliveries == s.deliveries && r.verdict.None?)
      && (r.err.Some? && r.err.value.AnswerReadFailed? ==>
            r.verdict.None? && r.state.wire == s.wire + encode(NewRequest(c, digest)).value)
    ensures var r := HandleSpec(s, c, encode, digest, resource);
      var e := encode(NewRequest(c, digest));
      e.Failure? ==> r.err == Some(EncodeFailed(e.error))
    ensures var r := HandleSpec(s, c, encode, digest, resource);
      var e := encode(NewRequest(c, digest));
      e.Success? && SendChunks(s, e.value).err.Some? ==>
        && r.err == Some(ChallengeWriteFailed(SendChunks(s, e.value).err.value))
        && r.state == SendChunks(s, e.value).state.(closed := true) && r.verdict.None?
    ensures var r := HandleSpec(s, c, encode, digest, resource);
      var e := encode(NewRequest(c, digest));
      e.Success? && SendChunks(s, e.value).err.None? && ServerRead(SendChunks(s, e.value).state).result.Failure? ==>
        && r.err == Some(AnswerReadFailed(ServerRead(SendChunks(s, e.value).state).result.error))
        && r.state == ServerRead(SendChunks(s, e.value).state).state.(closed := true) && r.verdict.None?
  {
  }

  /**
   * Once a verdict is chosen, the wire holds the whole challenge and then a
   * prefix of the verdict, all of it when `handle` returns no error.
   */
  lemma HandleWire(s: ConnState, c: Challenge, encode: Request -> Result<Bytes, string>,
                   digest: Bytes -> Bytes, resource: Bytes)
    ensures var r := HandleSpec(s, c, encode, digest, resource);
      r.verdict.Some? ==>
        && encode(NewRequest(c, digest)).Success?
        && (var buf := encode(NewRequest(c, digest)).value;
            var m := |r.state.wire| - |s.wire| - |buf|;
            && 0 <= m <= |r.verdict.value|
            && r.state.wire == s.wire + buf + r.verdict.value[..m]
            && (r.err.None? <==> m == |r.verdict.value|))
  {
    if encode(NewRequest(c, digest)).Success? {
      var buf := encode(NewRequest(c, digest)).value;
      assert encode(NewRequest(c, digest)) == Success(buf);
      var w := SendChunks(s, buf);
      if w.err.None? {
        assert ChunkLoopEffect(s, buf, w);
        assert w.state.wire == s.wire + buf;
        var rd := ServerRead(w.state);
        if rd.result.Success? {
          var answer := Verdict(rd.result.value, c, digest, resource);
          var v := SendChunks(rd.state, answer);
          assert ChunkLoopEffect(rd.state, answer, v);
          var m := |v.state.wire| - |rd.state.wire|;
          assert v.state.wire == s.wire + buf + answer[..m];
          assert HandleSpec(s, c, encode, digest, resource) == HandleRun(v.state.(closed := true),
            if v.err.Some? then Some(VerdictWriteFailed(v.err.value)) else None, Some(answer));
        }
      }
    }
  }

  /**
   * The last step: once the answer is read, the verdict chosen from it is
   * written and the connection closed; a failed verdict write returns that
   * write's own error, and a complete one returns no error.
   */
  lemma HandleVerdictWrite(s: ConnState, c: Challenge, encode: Request -> Result<Bytes, string>,
                           digest: Bytes -> Bytes, resource: Bytes)
    ensures var r := HandleSpec(s, c, encode, digest, resource);
      var e := encode(NewRequest(c, digest));
      e.Success? && SendChunks(s, e.value).err.None? && ServerRead(SendChunks(s, e.value).state).result.Success? ==>
        var rd := ServerRead(SendChunks(s, e.value).state);
        var v := SendChunks(rd.state, Verdict(rd.result.value, c, digest, resource));
        && r.verdict == Some(Verdict(rd.result.value, c, digest, resource))
        && r.state == v.state.(closed := true)
        && (v.err.Some? ==> r.err == Some(VerdictWriteFailed(v.err.value)))
        && (v.err.None? ==> r.err.None?)
  {
  }

  /**
   * The verdict is the resource exactly when the bytes `read` returned equal
   * the challenge's hash; every other answer is denied.
   */
  lemma HandleVerdict(s: ConnState, c: Challenge, encode: Request -> Result<Bytes, string>,
                      digest: Bytes -> Bytes, resource: Bytes)
    requires resource != AccessDenied
    ensures var r := HandleSpec(s, c, encode, digest, resource);
      r.verdict.Some? ==>
        var received := ServerRead(SendChunks(s, encode(NewRequest(c, digest)).value).state).result.value;
        (r.verdict == Some(resource) <==> received == c.Hash(digest))
        && (r.verdict == Some(AccessDenied) <==> received != c.Hash(digest))
  {
  }

  /**
   * With a SHA-1 digest, which is always 40 hexadecimal characters, the 2048
   * bytes `read` returns never equal the hash: `handle` as written denies
   * every peer, whatever it sends.
   */
  lemma HandleNeverGrants(s: ConnState, c: Challenge, encode: Request -> Result<Bytes, string>,
                          digest: Bytes -> Bytes, resource: Bytes)
    requires HexSha1Length(digest)
    ensures var r := HandleSpec(s, c, encode, digest, resource);
      r.verdict.Some? ==> r.verdict.value == AccessDenied
  {
    var r := HandleSpec(s, c, encode, digest, resource);
    if r.verdict.Some? {
      var buf := encode(NewRequest(c, digest)).value;
      var rd := ServerRead(SendChunks(s, buf).state);
      assert |rd.result.value| == TcpBuffSize;
      assert |c.Hash(digest)| == DigestLength;
    }
  }

  /**
   * The honest client sends the choice itself, not its digest; a token of
   * 5..9 characters never equals a 40-character digest, so even an answer
   * received intact is denied.
   */
  lemma HonestAnswerDenied(c: Challenge, digest: Bytes -> Bytes, resource: Bytes)
    requires WellFormed(c) && HexSha1Length(digest)
    ensures Verdict(c.Choice(), c, digest, resource) == AccessDenied
  {
    var i :| 0 <= i < |c.tokens| && c.tokens[i] == c.choice;
    assert WellFormedToken(c.tokens[i]);
    assert |c.Hash(digest)| == DigestLength;
  }

  /**
   * The honest client writes its answer and a sentinel and then waits for the
   * reply without closing. `read` does not stop at the sentinel, so the
   * handler runs into the read deadline and returns without a verdict.
   */
  lemma HonestExchangeTimesOut(s: ConnState, c: Challenge, encode: Request -> Result<Bytes, string>,
                               digest: Bytes -> Bytes, resource: Bytes, chunks: seq<Bytes>)
    requires encode(NewRequest(c, digest)).Success?
    requires SendChunks(s, encode(NewRequest(c, digest)).value).err.None?
    requires s.deadlineFault.None? && ReadSized(chunks) && s.deliveries == DataSteps(chunks)
    ensures var r := HandleSpec(s, c, encode, digest, resource);
      r.err == Some(AnswerReadFailed(ReadFailed(Timeout))) && r.verdict.None?
  {
    var buf := encode(NewRequest(c, digest)).value;
    assert encode(NewRequest(c, digest)) == Success(buf);
    var w := SendChunks(s, buf);
    assert w.err.None?;
    assert w.state.deliveries == s.deliveries && w.state.deadlineFault.None?;
    ServerReadWaitsForSilence(w.state, chunks);
    var rd := ServerRead(w.state);
    assert rd.result == Failure(ReadFailed(Timeout));
    HandleEarlyExits(s, c, encode, digest, resource);
  }

  /** Every split of a payload without the sentinel consists of unterminated chunks. */
  lemma {:induction false} FlattenUnterminated(chunks: seq<Bytes>)
    requires ReadSized(chunks) && NoNewline(Flatten(chunks))
    ensures Unterminated(chunks)
    decreases |chunks|
  {
    if chunks != [] {
      var c := chunks[0];
      assert Flatten(chunks) == c + Flatten(chunks[1..]);
      assert c[|c| - 1] in Flatten(chunks);
      assert NoNewline(Flatten(chunks[1..])) by {
        forall b | b in Flatten(chunks[1..])
          ensures b != Newline
        {
          assert b in Flatten(chunks);
        }
      }
      FlattenUnterminated(chunks[1..]);
      forall i | 0 <= i < |chunks|
        ensures chunks[i][|chunks[i]| - 1] != Newline
      {
        if i > 0 {
          assert chunks[i] == chunks[1..][i - 1];
        }
      }
    }
  }

  /**
   * The denial is written without a sentinel, so the client's framed `Read`
   * cannot tell where it ends: when the server then closes the connection,
   * the client's read fails with "connection closed" instead of returning
   * the message.
   */
  lemma ClientCannotReadVerdict(r: ConnState, chunks: seq<Bytes>, tail: seq<ReadStep>)
    requires ReadSized(chunks) && Flatten(chunks) == AccessDenied
    requires r.deadlineFault.None? && r.deliveries == DataSteps(chunks) + [Eof] + tail
    ensures FramedRead(r).result == Failure(ConnClosed)
  {
    AccessDeniedBytes();
    FlattenUnterminated(chunks);
    ReadInterrupted(r, [], chunks, Eof, tail);
  }

  /**
   * The challenge, too, is written without a sentinel. When its encoding holds
   * no `\n`, the client's framed `Read` cannot find its end, and the server
   * is by then waiting for the answer: the client's read runs into its
   * deadline.
   */
  lemma ClientCannotReadChallenge(r: ConnState, buf: Bytes, chunks: seq<Bytes>, tail: seq<ReadStep>)
    requires ReadSized(chunks) && Flatten(chunks) == buf && NoNewline(buf)
    requires r.deadlineFault.None? && r.deliveries == DataSteps(chunks) + [ReadFail(Timeout)] + tail
    ensures FramedRead(r).result == Failure(ReadFailed(Timeout))
  {
    FlattenUnterminated(chunks);
    ReadInterrupted(r, [], chunks, ReadFail(Timeout), tail);
  }

  /** `handle`: a fresh challenge, then the exchange; the deferred close runs on every path. */
  method Handle(conn: Conn, rng: Rand, encode: Request -> Result<Bytes, string>,
                digest: Bytes -> Bytes, resource: Bytes) returns (err: Option<HandleError>)
    modifies conn, rng
    ensures var (c, q) := Generate(rng.stream, old(rng.pos));
      rng.pos == q
      && var r := HandleSpec(old(conn.State()), c, encode, digest, resource);
         conn.State() == r.state && err == r.err
  {
    var c := NewChallenge(rng);
    var out := NewRequest(c, digest);
    match encode(out) {
      case Failure(e) =>
        err := Some(EncodeFailed(e));
      case Success(buf) =>
        var e := Write(conn, buf);
        if e.Some? {
          err := Some(ChallengeWriteFailed(e.value));
        } else {
          var data := Read(conn);
          if data.Failure? {
            err := Some(AnswerReadFailed(data.error));
          } else {
            var answer := Verdict(data.value, c, digest, resource);
            e := Write(conn, answer);
            err := if e.Some? then Some(VerdictWriteFailed(e.value)) else None;
          }
        }
    }
    conn.Close();
  }

  // ---------------------------------------------------------------------------
  // The exchange the client expects
  // ---------------------------------------------------------------------------

  /**
   * The corrected check: the answer is the challenge's choice, the token the
   * client found by its digest and sends back (client.go:42).
   */
  function IntendedVerdict(received: Bytes, c: Challenge, resource: Bytes): (v: Bytes)
    ensures v == resource || v == AccessDenied
    ensures received == c.Choice() ==> v == resource
  {
    if received == c.Choice() then resource else AccessDenied
  }

  /**
   * Under the intended check the resource is sent exactly for the choice, and
   * every other answer, from the set or not, gets the denial.
   */
  lemma IntendedVerdictExact(received: Bytes, c: Challenge, resource: Bytes)
    requires resource != AccessDenied
    ensures IntendedVerdict(received, c, resource) == resource <==> received == c.Choice()
    ensures IntendedVerdict(received, c, resource) == AccessDenied <==> received != c.Choice()
  {
  }

  /**
   * `handle` as the client expects it: both messages framed with the
   * shared helpers, the answer read up to its sentinel, and the intended check.
   */
  function IntendedHandleSpec(s: ConnState, c: Challenge, encode: Request -> Result<Bytes, string>,
                              digest: Bytes -> Bytes, resource: Bytes): (r: HandleRun)
    ensures r.state.closed
  {
    match encode(NewRequest(c, digest))
    case Failure(e) => HandleRun(s.(closed := true), Some(EncodeFailed(e)), None)
    case Success(buf) =>
      var w := FramedWrite(s, buf);
      if w.err.Some? then HandleRun(w.state.(closed := true), Some(ChallengeWriteFailed(w.err.value)), None)
      else
        var rd := FramedRead(w.state);
        if rd.result.Failure? then HandleRun(rd.state.(closed := true), Some(AnswerReadFailed(rd.result.error)), None)
        else
          var answer := IntendedVerdict(rd.result.value, c, resource);
          var v := FramedWrite(rd.state, answer);
          HandleRun(v.state.(closed := true), if v.err.Some? then Some(VerdictWriteFailed(v.err.value)) else None, Some(answer))
  }

  /**
   * With the intended handler, the honest answer (the choice), arriving framed
   * in any split, is granted: the peer receives the framed challenge and then
   * the framed resource, and the handler returns no error.
   */
  lemma IntendedHandleGrants(s: ConnState, c: Challenge, encode: Request -> Result<Bytes, string>,
                             digest: Bytes -> Bytes, resource: Bytes, chunks: seq<Bytes>, tail: seq<ReadStep>)
    requires WellFormed(c) && encode(NewRequest(c, digest)).Success?
    requires Accepting(s.accepts, |encode(NewRequest(c, digest)).value| + |resource| + 2)
    requires ReadSized(chunks) && Flatten(chunks) == c.Choice() + [Newline]
    requires s.deadlineFault.None? && s.deliveries == DataSteps(chunks) + tail
    ensures var r := IntendedHandleSpec(s, c, encode, digest, resource);
      && r.err.None? && r.verdict == Some(resource)
      && r.state.wire == s.wire + encode(NewRequest(c, digest)).value + [Newline] + resource + [Newline]
  {
    assert NoNewline(c.Choice()) by {
      DictAlphanumeric();
      var i :| 0 <= i < |c.tokens| && c.tokens[i] == c.choice;
      assert WellFormedToken(c.tokens[i]);
    }
    var buf := encode(NewRequest(c, digest)).value;
    var k := |buf| + |resource| + 2;
    WriteDeliversFrame(s, buf, k);
    var w := FramedWrite(s, buf);
    ReadRoundTrip(w.state, c.Choice(), chunks, tail);
    var rd := FramedRead(w.state);
    WriteDeliversFrame(rd.state, resource, k - |buf| - 1);
  }

  /**
   * Under the intended handler the client can read the verdict back: however
   * the framed denial is split, the client's `Read` returns the message.
   */
  lemma IntendedVerdictReadable(w: ConnState, r: ConnState, chunks: seq<Bytes>, tail: seq<ReadStep>)
    requires Accepting(w.accepts, |AccessDenied| + 1)
    requires ReadSized(chunks) && Flatten(chunks) == FramedWrite(w, AccessDenied).state.wire[|w.wire|..]
    requires r.deadlineFault.None? && r.deliveries == DataSteps(chunks) + tail
    ensures FramedRead(r).result == Success(AccessDenied)
  {
    AccessDeniedBytes();
    FramingRoundTrip(w, AccessDenied, r, chunks, tail);
  }

  /** The intended `handle`, with the framing helpers and the intended check. */
  method IntendedHandle(conn: Conn, rng: Rand, encode: Request -> Result<Bytes, string>,
                        digest: Bytes -> Bytes, resource: Bytes) returns (err: Option<HandleError>)
    modifies conn, rng
    ensures var (c, q) := Generate(rng.stream, old(rng.pos));
      rng.pos == q
      && var r := IntendedHandleSpec(old(conn.State()), c, encode, digest, resource);
         conn.State() == r.state && err == r.err
  {
    var c := NewChallenge(rng);
    var out := NewRequest(c, digest);
    match encode(out) {
      case Failure(e) =>
        err := Some(EncodeFailed(e));
      case Success(buf) =>
        var e := Framing.Write(conn, buf);
        if e.Some? {
          err := Some(ChallengeWriteFailed(e.value));
        } else {
          var data := Framing.Read(conn);
          if data.Failure? {
            err := Some(AnswerReadFailed(data.error));
          } else {
            var answer := IntendedVerdict(data.value, c, resource);
            e := Framing.Write(conn, answer);
            err := if e.Some? then Some(VerdictWriteFailed(e.value)) else None;
          }
        }
    }
    conn.Close();
  }
}
