/**
 * The byte type, the error wrappers and a scripted model of a `net.Conn`.
 *
 * A connection is what the peer and the network decide: how many bytes each
 * `Write` is accepted, what each `Read` delivers (a chunk of data, end of
 * stream, or a failure) and whether setting a read deadline fails. The model
 * replays those decisions from two scripts and records everything the program
 * offered and everything the network accepted, so that the framing, client
 * and server models can be specified as functions of the connection state.
 */
module Net {

  newtype byte = b: int | 0 <= b < 256

  /** A Go `[]byte` or `string`: both are byte sequences. */
  type Bytes = seq<byte>

  datatype Option<+T> = None | Some(value: T)

  datatype Result<+T, +E> = Success(value: T) | Failure(error: E)

  /** The bytes of a string literal whose characters are all ASCII. */
  function Ascii(s: string): (r: Bytes)
    ensures |r| == |s|
    ensures forall i | 0 <= i < |s| :: r[i] as int == s[i] as int % 256
  {
    seq(|s|, i requires 0 <= i < |s| => (s[i] as int % 256) as byte)
  }

  /** A failure reported by the socket itself. `Timeout` is a read deadline that elapsed. */
  datatype IoError = Timeout | Reset | Other(reason: string)

  /** What the network does with the next `conn.Write(p)`. */
  datatype WriteStep = Accept(n: nat) | WriteFail(err: IoError)

  /** What the next `conn.Read(buf)` delivers. */
  datatype ReadStep = Data(bytes: Bytes) | Eof | ReadFail(err: IoError)

  /** The error half of `conn.Read`'s result: `io.EOF` or any other error. */
  datatype ReadErr = EOF | NetFailure(err: IoError)

  datatype ConnState = ConnState(
    accepts: seq<WriteStep>,         // outcomes of the writes still to come
    deliveries: seq<ReadStep>,       // deliveries of the reads still to come
    deadlineFault: Option<IoError>,  // what SetReadDeadline reports
    offered: seq<Bytes>,             // every buffer passed to Write, in order
    wire: Bytes,                     // every byte the network accepted, in order
    closed: bool)

  /** Weight of a read script: strictly smaller after every read that delivers data. */
  function Pending(script: seq<ReadStep>): nat
  {
    if script == [] then 0
    else (match script[0] case Data(b) => |b| + 1 case _ => 1) + Pending(script[1..])
  }

  datatype WriteReply = WriteReply(state: ConnState, n: nat, err: Option<IoError>)

  /**
   * One `conn.Write(p)`. The buffer is logged as offered; the network accepts
   * a prefix of it (never more than offered, as an `io.Writer` must) or fails.
   * Once the write script is exhausted the peer has gone and writes fail.
   */
  function WriteOnce(s: ConnState, p: Bytes): (r: WriteReply)
    ensures r.n <= |p|
    ensures r.err.Some? ==> r.n == 0
    ensures r.state.offered == s.offered + [p]
    ensures r.state.wire == s.wire + p[..r.n]
    ensures r.err.None? ==> |r.state.accepts| == |s.accepts| - 1
    ensures |r.state.accepts| <= |s.accepts|
    ensures r.state.deliveries == s.deliveries && r.state.deadlineFault == s.deadlineFault
    ensures r.state.closed == s.closed
  {
    var logged := s.(offered := s.offered + [p]);
    if s.accepts == [] then WriteReply(logged, 0, Some(Reset))
    else match s.accepts[0]
      case WriteFail(e) => WriteReply(logged.(accepts := s.accepts[1..]), 0, Some(e))
      case Accept(k) =>
        var n := if k < |p| then k else |p|;
        WriteReply(logged.(accepts := s.accepts[1..], wire := s.wire + p[..n]), n, None)
  }

  datatype ReadReply = ReadReply(state: ConnState, chunk: Bytes, err: Option<ReadErr>)

  /**
   * One `conn.Read(buf)` with `|buf| == cap`. A data chunk longer than the
   * buffer is delivered in part and its rest stays first in line, as a stream
   * socket does; end of stream is sticky; an exhausted script is a peer that
   * stays silent until the read deadline.
   */
  function ReadOnce(s: ConnState, cap: nat): (r: ReadReply)
    ensures |r.chunk| <= cap
    ensures r.err.Some? ==> r.chunk == []
    ensures r.err.None? && r.chunk != [] ==> Pending(r.state.deliveries) < Pending(s.deliveries)
    ensures Pending(r.state.deliveries) <= Pending(s.deliveries)
    ensures r.state.accepts == s.accepts && r.state.offered == s.offered && r.state.wire == s.wire
    ensures r.state.deadlineFault == s.deadlineFault && r.state.closed == s.closed
  {
    if s.deliveries == [] then ReadReply(s, [], Some(NetFailure(Timeout)))
    else match s.deliveries[0]
      case Eof => ReadReply(s, [], Some(EOF))
      case ReadFail(e) => ReadReply(s.(deliveries := s.deliveries[1..]), [], Some(NetFailure(e)))
      case Data(b) =>
        if |b| <= cap then ReadReply(s.(deliveries := s.deliveries[1..]), b, None)
        else
          var rest := [Data(b[cap..])] + s.deliveries[1..];
          assert rest[1..] == s.deliveries[1..];
          ReadReply(s.(deliveries := rest), b[..cap], None)
  }

  /** A connection whose behaviour is given by its scripts. */
  class Conn {
    var accepts: seq<WriteStep>
    var deliveries: seq<ReadStep>
    const deadlineFault: Option<IoError>
    var offered: seq<Bytes>
    var wire: Bytes
    var closed: bool

    function State(): ConnState
      reads this
    {
      ConnState(accepts, deliveries, deadlineFault, offered, wire, closed)
    }

    constructor (accepts: seq<WriteStep>, deliveries: seq<ReadStep>, deadlineFault: Option<IoError>)
      ensures State() == ConnState(accepts, deliveries, deadlineFault, [], [], false)
    {
      this.accepts := accepts;
      this.deliveries := deliveries;
      this.deadlineFault := deadlineFault;
      offered := [];
      wire := [];
      closed := false;
    }

    method Write(p: Bytes) returns (n: nat, err: Option<IoError>)
      modifies this
      ensures WriteReply(State(), n, err) == WriteOnce(old(State()), p)
    {
      var r := WriteOnce(State(), p);
      accepts, offered, wire := r.state.accepts, r.state.offered, r.state.wire;
      n, err := r.n, r.err;
    }

    /** Fills a prefix of `buf` with the delivered chunk and leaves the rest of it as it was. */
    method Read(buf: array<byte>) returns (n: nat, err: Option<ReadErr>)
      modifies this, buf
      ensures var r := ReadOnce(old(State()), buf.Length);
        State() == r.state && n == |r.chunk| && err == r.err
        && buf[..] == r.chunk + old(buf[..])[n..]
    {
      var r := ReadOnce(State(), buf.Length);
      deliveries := r.state.deliveries;
      n, err := |r.chunk|, r.err;
      forall i | 0 <= i < n {
        buf[i] := r.chunk[i];
      }
    }

    method SetReadDeadline() returns (err: Option<IoError>)
      ensures err == deadlineFault
    {
      err := deadlineFault;
    }

    method Close()
      modifies this
      ensures State() == old(State()).(closed := true)
    {
      closed := true;
    }
  }
}
