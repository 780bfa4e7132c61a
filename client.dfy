/**
 * The solving peer (internal/app/client/client.go).
 *
 * `Run` reads one framed challenge, decodes it into the set of tokens and the
 * target digest, searches the set in order for the first token whose digest
 * is the target, sends that token framed, and returns the next framed
 * message. The decoder and the digest are supplied by the caller.
 */
module ClientApp {
  import opened Net
  import opened Framing
  import opened ChallengeEntity

  /** The decoded challenge message: the offered tokens and the digest to match. */
  datatype Request = Request(Set: seq<Bytes>, Answer: Bytes)

  datatype ClientError =
    | ChallengeReadFailed(cause: ReadError)    // "client run error"
    | DecodeFailed(reason: string)             // "request decode error"
    | SolutionNotFound                         // "solution not found in set"
    | AnswerWriteFailed(ioError: IoError)      // "error write to socket"
    | ResultReadFailed(cause: ReadError)       // the last read's own error, returned as is

  /** The first token of `candidates`, in order, whose digest is `answer`; empty when there is none. */
  function FirstMatch(candidates: seq<Bytes>, answer: Bytes, digest: Bytes -> Bytes): (r: Bytes)
    ensures r == [] || (r in candidates && digest(r) == answer)
  {
    if candidates == [] then []
    else if digest(candidates[0]) == answer then candidates[0]
    else FirstMatch(candidates[1..], answer, digest)
  }

  /**
   * The search is first-match: a non-empty result sits at an index where the
   * digest matches and no earlier token's digest does.
   */
  lemma {:induction false} FirstMatchIsFirst(candidates: seq<Bytes>, answer: Bytes, digest: Bytes -> Bytes)
    requires FirstMatch(candidates, answer, digest) != []
    ensures exists i | 0 <= i < |candidates| ::
      candidates[i] == FirstMatch(candidates, answer, digest) && digest(candidates[i]) == answer
      && forall j | 0 <= j < i :: digest(candidates[j]) != answer
  {
    if digest(candidates[0]) != answer {
      FirstMatchIsFirst(candidates[1..], answer, digest);
      var i :| 0 <= i < |candidates[1..]| && candidates[1..][i] == FirstMatch(candidates[1..], answer, digest)
        && digest(candidates[1..][i]) == answer && forall j | 0 <= j < i :: digest(candidates[1..][j]) != answer;
      assert candidates[i + 1] == candidates[1..][i];
      forall j | 0 <= j < i + 1
        ensures digest(candidates[j]) != answer
      {
        if j > 0 {
          assert candidates[j] == candidates[1..][j - 1];
        }
      }
    }
  }

  /**
   * The empty result means "not found": when no token is empty it comes back
   * exactly when no token has the digest.
   */
  lemma {:induction false} FirstMatchEmpty(candidates: seq<Bytes>, answer: Bytes, digest: Bytes -> Bytes)
    requires [] !in candidates
    ensures FirstMatch(candidates, answer, digest) == [] <==> forall v | v in candidates :: digest(v) != answer
  {
    if candidates != [] {
      FirstMatchEmpty(candidates[1..], answer, digest);
      assert forall v | v in candidates :: v == candidates[0] || v in candidates[1..];
    }
  }

  /**
   * Solving a challenge: the search over its set for the digest of its choice
   * finds a token with that digest, and finds the choice itself when no other
   * token of the set shares its digest.
   */
  lemma SolverFindsChoice(c: Challenge, digest: Bytes -> Bytes)
    requires WellFormed(c)
    ensures var r := FirstMatch(c.Set(), c.Hash(digest), digest);
      r != [] && r in c.Set() && digest(r) == digest(c.Choice())
    ensures (forall v | v in c.Set() && digest(v) == digest(c.Choice()) :: v == c.Choice())
      ==> FirstMatch(c.Set(), c.Hash(digest), digest) == c.Choice()
  {
    assert [] !in c.tokens by {
      forall i | 0 <= i < |c.tokens|
        ensures c.tokens[i] != []
      {
        assert WellFormedToken(c.tokens[i]);
      }
    }
    FirstMatchEmpty(c.tokens, c.Hash(digest), digest);
  }

  /** Tokens never contain the framing sentinel, so the answer can be framed as is. */
  lemma TokenFramable(t: Bytes)
    requires WellFormedToken(t)
    ensures NoNewline(t)
  {
    DictAlphanumeric();
  }

  /** `resolve`: a linear search that stops at the first token whose digest is the target. */
  method Resolve(req: Request, digest: Bytes -> Bytes) returns (r: Bytes)
    ensures r == FirstMatch(req.Set, req.Answer, digest)
    ensures r != [] ==> r in req.Set && digest(r) == req.Answer
  {
    var candidates := req.Set;
    var a := req.Answer;
    for i := 0 to |candidates|
      invariant FirstMatch(candidates[i..], a, digest) == FirstMatch(candidates, a, digest)
    {
      assert candidates[i..][1..] == candidates[i + 1..];
      if digest(candidates[i]) == a {
        return candidates[i];
      }
    }
    return [];
  }

  datatype RunResult = RunResult(state: ConnState, result: Result<Bytes, ClientError>)

  /** `Run` as a function of the connection state, with the decoder and the digest given. */
  function RunSpec(s: ConnState, decode: Bytes -> Result<Request, string>, digest: Bytes -> Bytes): (r: RunResult)
    ensures r.state.closed == s.closed
    ensures r.result.Success? ==> |s.wire| < |r.state.wire| && r.state.wire[..|s.wire|] == s.wire
  {
    var task := FramedRead(s);
    if task.result.Failure? then RunResult(task.state, Failure(ChallengeReadFailed(task.result.error)))
    else match decode(task.result.value)
      case Failure(e) => RunResult(task.state, Failure(DecodeFailed(e)))
      case Success(req) =>
        var res := FirstMatch(req.Set, req.Answer, digest);
        if res == [] then RunResult(task.state, Failure(SolutionNotFound))
        else
          var w := FramedWrite(task.state, res);
          if w.err.Some? then RunResult(w.state, Failure(AnswerWriteFailed(w.err.value)))
          else
            var out := FramedRead(w.state);
            RunResult(out.state,
              match out.result
              case Success(v) => Success(v)
              case Failure(e) => Failure(ResultReadFailed(e)))
  }

  /**
   * `Run` writes nothing when it stops before sending the answer: when the
   * challenge cannot be read or decoded, or the set holds no matching token.
   */
  lemma RunWritesNothingOnEarlyExit(s: ConnState, decode: Bytes -> Result<Request, string>, digest: Bytes -> Bytes)
    ensures var r := RunSpec(s, decode, digest);
      r.result.Failure? && (r.result.error.ChallengeReadFailed? || r.result.error.DecodeFailed?
                            || r.result.error == SolutionNotFound)
      ==> r.state.offered == s.offered && r.state.wire == s.wire && r.state.accepts == s.accepts
    ensures var t := FramedRead(s); var r := RunSpec(s, decode, digest);
      t.result.Failure? ==> r.result == Failure(ChallengeReadFailed(t.result.error)) && r.state == t.state
    ensures var t := FramedRead(s); var r := RunSpec(s, decode, digest);
      t.result.Success? && decode(t.result.value).Failure? ==>
        r.result == Failure(DecodeFailed(decode(t.result.value).error)) && r.state == t.state
    ensures var t := FramedRead(s); var r := RunSpec(s, decode, digest);
      t.result.Success? && decode(t.result.value).Success?
      && FirstMatch(decode(t.result.value).value.Set, decode(t.result.value).value.Answer, digest) == [] ==>
        r.result == Failure(SolutionNotFound) && r.state == t.state
  {
  }

  /**
   * When the answer is sent, it is the first matching token of the decoded set, written
   * once: the wire gains that token (and its sentinel, when that write
   * is accepted) and nothing else, and the run returns the next message.
   */
  lemma RunSendsFoundToken(s: ConnState, decode: Bytes -> Result<Request, string>, digest: Bytes -> Bytes)
    requires FramedRead(s).result.Success?
    requires decode(FramedRead(s).result.value).Success?
    ensures var req := decode(FramedRead(s).result.value).value;
      var res := FirstMatch(req.Set, req.Answer, digest);
      var r := RunSpec(s, decode, digest);
      && (res == [] <==> r.result == Failure(SolutionNotFound))
      && (res != [] && !(r.result.Failure? && r.result.error.AnswerWriteFailed?) ==>
            r.state.wire == s.wire + res || r.state.wire == s.wire + res + [Newline])
      && (r.result.Success? ==> r.result.value == FramedRead(FramedWrite(FramedRead(s).state, res).state).result.value)
    ensures var req := decode(FramedRead(s).result.value).value;
      var res := FirstMatch(req.Set, req.Answer, digest);
      var w := FramedWrite(FramedRead(s).state, res);
      var r := RunSpec(s, decode, digest);
      res != [] && w.err.Some? ==> r.result == Failure(AnswerWriteFailed(w.err.value)) && r.state == w.state
    ensures var req := decode(FramedRead(s).result.value).value;
      var res := FirstMatch(req.Set, req.Answer, digest);
      var w := FramedWrite(FramedRead(s).state, res);
      var out := FramedRead(w.state);
      var r := RunSpec(s, decode, digest);
      res != [] && w.err.None? ==>
        && r.state == out.state
        && (out.result.Failure? ==> r.result == Failure(ResultReadFailed(out.result.error)))
        && (out.result.Success? ==> r.result == Success(out.result.value))
  {
  }

  /**
   * An honest exchange: the challenge arrives framed, decodes to the set and the
   * digest of its choice, and the answer write is accepted; then the client
   * sends exactly the choice (when its digest is unique in the candidates) framed,
   * and returns whatever the next message holds.
   */
  lemma RunAnswersChallenge(s: ConnState, decode: Bytes -> Result<Request, string>, digest: Bytes -> Bytes, c: Challenge)
    requires WellFormed(c)
    requires forall v | v in c.Set() && digest(v) == digest(c.Choice()) :: v == c.Choice()
    requires FramedRead(s).result.Success?
    requires decode(FramedRead(s).result.value) == Success(Request(c.Set(), c.Hash(digest)))
    requires Accepting(FramedRead(s).state.accepts, |c.Choice()| + 1)
    ensures RunSpec(s, decode, digest).state.wire == s.wire + c.Choice() + [Newline]
    ensures RunSpec(s, decode, digest).result.Success?
      <==> FramedRead(FramedWrite(FramedRead(s).state, c.Choice()).state).result.Success?
  {
    SolverFindsChoice(c, digest);
    WriteDeliversFrame(FramedRead(s).state, c.Choice(), |c.Choice()| + 1);
  }

  class Client {
    const conn: Conn

    constructor (conn: Conn)
      ensures this.conn == conn
    {
      this.conn := conn;
    }

    method Run(decode: Bytes -> Result<Request, string>, digest: Bytes -> Bytes) returns (result: Result<Bytes, ClientError>)
      modifies conn
      ensures RunResult(conn.State(), result) == RunSpec(old(conn.State()), decode, digest)
    {
      var task := Framing.Read(conn);
      if task.Failure? {
        return Failure(ChallengeReadFailed(task.error));
      }
      var req;
      match decode(task.value) {
        case Failure(e) =>
          return Failure(DecodeFailed(e));
        case Success(r) =>
          req := r;
      }
      var res := Resolve(req, digest);
      if res == [] {
        return Failure(SolutionNotFound);
      }
      var err := Framing.Write(conn, res);
      if err.Some? {
        return Failure(AnswerWriteFailed(err.value));
      }
      var out := Framing.Read(conn);
      match out {
        case Success(v) =>
          return Success(v);
        case Failure(e) =>
          return Failure(ResultReadFailed(e));
      }
    }
  }
}
