# powprotected in Dafny

A model of the sequential core of powprotected, a TCP gatekeeper. For each
connection the server makes a challenge: a random set of short tokens and the
SHA-1 digest of one of them, the choice. It sends the challenge, reads the
client's answer, and replies with the protected resource or with
`Error: access denied`. The client searches the set for the token whose digest
matches and sends that token back.

The model has five modules:

- `Net` (`net.dfy`) holds the byte type, `Option`/`Result`, and a scripted
  `net.Conn`. The class `Conn` replays two scripts: what each `Write` has
  accepted, and what each `Read` delivers (data, end of stream or an error).
  It records every buffer offered and every byte accepted. `WriteOnce` and
  `ReadOnce` are the same calls as functions of a `ConnState` value.
- `Framing` (`framing.dfy`) models `internal/app/readwrite.go`. `Write` sends
  chunks of at most 2048 bytes and then the `\n` sentinel. `Read` collects
  bytes until a chunk ends with `\n`. Each method is proved equal to a
  function of the connection state: `SendChunks`/`FramedWrite` and
  `Accumulate`/`FramedRead`. The lemmas about those functions state the
  source's promises.
- `ChallengeEntity` (`challenge.dfy`) models
  `internal/domain/challenge/entity.go`. The random generator is a `Rand`
  object over an arbitrary stream of numbers. `NewChallenge` and `RndString`
  are loops proved equal to `Generate` and `TokenAt`, and every challenge they
  build is `WellFormed`.
- `ClientApp` (`client.dfy`) models `internal/app/client/client.go`:
  `resolve` as a first-match search, and `Run` as a step sequence proved equal
  to `RunSpec`.
- `ServerApp` (`server.dfy`) models `handle`, `write`, `read` and
  `accessDenied` of `internal/app/server/server.go` as written, with
  `HandleSpec`, `Drain` and `ServerRead` as their specifications. The
  `Intended` members model the exchange the client expects: client.go sends
  the token itself, framed, and reads the verdict with the framed `Read`.
  The "Findings" section lists where the two differ.

The SHA-1 digest, the gob encoder and decoder, and the protected resource are
parameters. Every property holds for every digest function, with two
exceptions. A contract that names `HexSha1Length` assumes every digest is 40
hexadecimal characters long. ClientApp.RunAnswersChallenge assumes that no
other token of the set has the choice's digest.

The model follows the code as written, including where it is surprising:

- The token alphabet in `entity.go:15` has 61 characters and no lower-case `z`.
- The server does not frame its messages, neither the challenge nor the verdict,
  while the client reads both with the framed `Read`.
- The server's `read` returns its whole buffer.
- The server compares the answer with the digest, while the client sends the
  token itself.

The last three are listed under "Findings".

## Model

| member | source | states |
|---|---|---|
| Net.WriteOnce | internal/app/readwrite.go:26 | one `conn.Write`: accepts a prefix of the buffer, never more than offered; an error accepts nothing; the buffer is logged; reads are untouched |
| Net.ReadOnce | internal/app/readwrite.go:45 | one `conn.Read` into a buffer of a given size: at most that many bytes; an error delivers none; a read with data shrinks what is still pending; writes are untouched |
| Net.Conn.Write | internal/app/readwrite.go:26 | the connection's new state, count and error are those of `WriteOnce` |
| Net.Conn.Read | internal/app/readwrite.go:45 | the new state, count and error are those of `ReadOnce`; the delivered chunk overwrites a prefix of the buffer and the rest of the buffer is unchanged |
| Net.Conn.SetReadDeadline | internal/app/readwrite.go:41 | reports the connection's scripted deadline outcome |
| Net.Conn.Close | internal/app/server/server.go:94 | marks the connection closed and changes nothing else |
| Framing.Min | internal/app/readwrite.go:63-68 | the result is one of the arguments and is no larger than either (server.go:167-172 is the same function) |
| Framing.SendChunks | internal/app/readwrite.go:21-31 | the chunk loop: reads are untouched; the accepted bytes are a prefix of `data`, all of it exactly when no error is returned; a suffix of the write outcomes is left; an empty `data` makes no write at all |
| Framing.SendChunksOffersBounded | internal/app/readwrite.go:21-26 | every chunk the loop offers to `conn.Write` is 1..2048 bytes long |
| Framing.FramedWrite | internal/app/readwrite.go:20-36 | on success the wire gains `data` followed at most by one `\n`; on an error it gains only a prefix of `data`; empty `data` offers exactly one buffer, `"\n"` |
| Framing.FramedWriteOffersBounded | internal/app/readwrite.go:21-32 | every buffer `Write` offers, the sentinel included, is 1..2048 bytes long |
| Framing.SendChunksCompletes | internal/app/readwrite.go:21-31 | if every write accepts at least one byte, the loop ends without error after at most `|data|` writes |
| Framing.SendChunksStopsAtFailure | internal/app/readwrite.go:21-31 | the chunk loop makes one `conn.Write` per write outcome it consumes; on success every one was accepted; on error it returns the failing write's own error (or `Reset` once the outcomes ran out) and makes no write after it |
| Framing.FramedWriteStopsAtFailure | internal/app/readwrite.go:20-36 | the same for the whole `Write`: a failing chunk or sentinel write is the last write, and its error is the one returned |
| Framing.WriteDeliversFrame | internal/app/readwrite.go:20-35 | if every write accepts at least one byte, `Write` succeeds and the wire gains exactly `data + "\n"` |
| Framing.WriteErrorSkipsSentinel | internal/app/readwrite.go:26-34 | after a write error in the chunk loop, `Write` returns the loop's result unchanged: the sentinel is not offered and part of `data` is left unsent |
| Framing.WriteChunks | internal/app/readwrite.go:21-31 | the loop re-slicing `data` after each partial write has the effect and the error of `SendChunks` |
| Framing.Write | internal/app/readwrite.go:20-36 | `Write` has the effect and the error of `FramedWrite` |
| Framing.Accumulate | internal/app/readwrite.go:44-60 | the read loop writes nothing, and a returned message extends the bytes already collected |
| Framing.FramedRead | internal/app/readwrite.go:38-61 | a deadline error is returned before any read; reading never writes |
| Framing.AccumulateLastChunk | internal/app/readwrite.go:55-59 | a chunk whose last byte is `\n` ends the loop with everything collected so far, that byte removed |
| Framing.AccumulateChunk | internal/app/readwrite.go:55-56 | a chunk whose last byte is not `\n` is appended and the loop goes on |
| Framing.ReadStopsAtSentinel | internal/app/readwrite.go:55-59 | once a chunk ends with `\n`, `Read` returns everything received so far without its last byte and leaves later deliveries unread |
| Framing.ReadInterrupted | internal/app/readwrite.go:45-54 | end of stream before a sentinel gives `ErrConnClosed` and discards the collected bytes; an empty read gives "unexpected empty buffer"; another error gives "read error" |
| Framing.AccumulateFrame | internal/app/readwrite.go:44-60 | from any split of the rest of a frame, the loop returns the payload |
| Framing.ReadRoundTrip | internal/app/readwrite.go:38-61 | round trip: however `payload + "\n"` is split into chunks, for a payload without `\n`, `Read` returns `payload` |
| Framing.FramingRoundTrip | internal/app/readwrite.go:20-61 | end to end: the bytes `Write` puts on the wire, split in any way, are read back by `Read` as the same payload |
| Framing.Read | internal/app/readwrite.go:38-61 | `Read` has the effect and the result of `FramedRead` |
| ChallengeEntity.DictAlphanumeric | internal/domain/challenge/entity.go:15 | `dict` has 61 characters, all letters or digits; it holds no `\n` and no `z` |
| ChallengeEntity.Rand.constructor | internal/domain/challenge/entity.go:59-61 | a generator starts at the beginning of its stream |
| ChallengeEntity.Rand.Intn | internal/domain/challenge/entity.go:26 | `Intn(n)` is below `n` and consumes one number of the stream |
| ChallengeEntity.TokenAt | internal/domain/challenge/entity.go:52-53 | every token drawn has 5..9 characters |
| ChallengeEntity.TokenAtWellFormed | internal/domain/challenge/entity.go:49-57 | every token drawn has 5..9 characters, each taken from `dict` |
| ChallengeEntity.TokenEnd | internal/domain/challenge/entity.go:49-57 | a token consumes one draw for its length and one per character |
| ChallengeEntity.DrawTokens | internal/domain/challenge/entity.go:28-30 | `k` consecutive draws give `k` tokens and never move the generator back |
| ChallengeEntity.DrawTokensWellFormed | internal/domain/challenge/entity.go:28-30 | every token of a run of draws is well formed |
| ChallengeEntity.Generate | internal/domain/challenge/entity.go:24-33 | every challenge has `100 <= size < 1024` and `len(set) == size`, and generating consumes draws |
| ChallengeEntity.GenerateWellFormed | internal/domain/challenge/entity.go:24-33 | every challenge is well formed: size bounds, well-formed tokens, a choice that belongs to the set; the set is never empty |
| ChallengeEntity.Challenge.Choice | internal/domain/challenge/entity.go:35-37 | the choice of a well-formed challenge is one of its set and a well-formed token |
| ChallengeEntity.Challenge.Set | internal/domain/challenge/entity.go:39-41 | the set of a well-formed challenge has `size` tokens, the choice among them |
| ChallengeEntity.Challenge.Hash | internal/domain/challenge/entity.go:43-47 | with a hexadecimal SHA-1 digest, the hash is 40 characters long |
| ChallengeEntity.HashDependsOnChoice | internal/domain/challenge/entity.go:43-47 | `Hash()` depends only on the choice |
| ChallengeEntity.RndString | internal/domain/challenge/entity.go:49-57 | the loop appending one `dict` character per draw returns `TokenAt` and advances the generator past its draws |
| ChallengeEntity.NewChallenge | internal/domain/challenge/entity.go:24-33 | the loop filling the set returns `Generate`'s challenge and leaves the generator where `Generate` says |
| ClientApp.FirstMatch | internal/app/client/client.go:54-61 | a non-empty result is in the set and its digest is the answer |
| ClientApp.FirstMatchIsFirst | internal/app/client/client.go:56-60 | a non-empty result is at an index whose digest matches, and no earlier token's digest does |
| ClientApp.FirstMatchEmpty | internal/app/client/client.go:56-61 | for a set without empty tokens, the result is `""` exactly when no token's digest is the answer |
| ClientApp.SolverFindsChoice | internal/app/client/client.go:54-60 | given a well-formed challenge's set and hash, the search finds a token with the choice's digest, and the choice itself when no other token shares that digest |
| ClientApp.TokenFramable | internal/domain/challenge/entity.go:15 | a well-formed token contains no `\n`, so it meets the framing precondition |
| ClientApp.Resolve | internal/app/client/client.go:49-62 | the loop returns `FirstMatch`: `""` or a member of the set whose digest is the answer |
| ClientApp.RunSpec | internal/app/client/client.go:26-47 | `Run` never closes the connection, and it succeeds only after putting bytes on the wire, after whatever was there before |
| ClientApp.RunWritesNothingOnEarlyExit | internal/app/client/client.go:27-40 | a failed first read returns that read's error, a failed decode returns the decoder's error, and a search that finds nothing returns "solution not found"; each stops `Run` where the failing step left the connection, so nothing is written |
| ClientApp.RunSendsFoundToken | internal/app/client/client.go:37-46 | "solution not found" comes back exactly when the search is empty; otherwise the found token is written once; a failed answer write returns that write's error and reads nothing more; after a sent answer the second read's message, or its own error, is returned |
| ClientApp.RunAnswersChallenge | internal/app/client/client.go:26-46 | for an honest challenge whose choice is the only token of the set with its digest, and accepting writes, `Run` sends exactly the choice and `\n`, and succeeds exactly when the final read does |
| ClientApp.Client.constructor | internal/app/client/client.go:19-24 | the client keeps the connection it was given |
| ClientApp.Client.Run | internal/app/client/client.go:26-47 | `Run` has the effect and the result of `RunSpec` |
| ServerApp.AccessDeniedBytes | internal/app/server/server.go:20 | `accessDenied` is 20 bytes and contains no `\n` |
| ServerApp.NewRequest | internal/domain/challenge/request.go:16-22 | the request names the `SHA1` method, and for a well-formed challenge some token of its set has the digest it carries |
| ServerApp.ServerWriteUnframed | internal/app/server/server.go:135-148 | if every write accepts at least one byte, the server's `write` succeeds and the wire gains exactly `data`, with no sentinel, in at most `|data|` writes |
| ServerApp.Write | internal/app/server/server.go:135-148 | the server's `write` has the effect and the error of the chunk loop alone; empty data makes no `conn.Write` and returns nil |
| ServerApp.Drain | internal/app/server/server.go:155-164 | the read loop writes nothing; it returns a 2048-byte buffer, or a "read error"; end of stream is not an error: it returns the buffer as it stands |
| ServerApp.ServerRead | internal/app/server/server.go:150-165 | a deadline error is returned before any read; on success the result is always 2048 bytes long |
| ServerApp.DrainKeepsLastChunk | internal/app/server/server.go:155-164 | after data and then an empty read or end of stream, the result starts with the last chunk received, and is the untouched buffer if nothing arrived |
| ServerApp.ServerReadPadsAnswer | internal/app/server/server.go:150-165 | an answer in one chunk, then end of stream, is returned with zeros up to 2048 bytes |
| ServerApp.DrainWaitsForSilence | internal/app/server/server.go:155-164 | `read` does not stop at `\n`: if the peer sends data and then waits, the read fails with a timeout |
| ServerApp.ServerReadWaitsForSilence | internal/app/server/server.go:150-165 | from its zeroed buffer, `read` times out when the peer sends data and then waits |
| ServerApp.DrainFails | internal/app/server/server.go:156-159 | a non-EOF read error after any data is returned as the read error |
| ServerApp.Read | internal/app/server/server.go:150-165 | the server's `read` has the effect and the result of `ServerRead` |
| ServerApp.Verdict | internal/app/server/server.go:121-128 | the verdict is the resource or `accessDenied`, and `accessDenied` whenever the answer is not `c.Hash()` |
| ServerApp.HandleSpec | internal/app/server/server.go:90-133 | the connection is closed on every path |
| ServerApp.HandleEarlyExits | internal/app/server/server.go:106-120 | an encode error, a challenge-write error and a read error are each returned as that step's own error, wrapped; the encode error before any I/O, the write error before any read, the read error before a verdict is written, with only the challenge on the wire |
| ServerApp.HandleWire | internal/app/server/server.go:112-131 | once a verdict is chosen, the wire holds the whole challenge and then a prefix of the verdict, all of it exactly when `handle` returns nil |
| ServerApp.HandleVerdictWrite | internal/app/server/server.go:121-132 | after a successful read, the verdict chosen from the answer is written and the connection closed; a failed verdict write returns that write's own error, a complete one returns nil |
| ServerApp.HandleVerdict | internal/app/server/server.go:121-128 | the verdict is the resource exactly when the bytes read equal `c.Hash()`, and `accessDenied` otherwise |
| ServerApp.HandleNeverGrants | internal/app/server/server.go:121-128 | with a 40-character digest, `handle` as written never sends the resource |
| ServerApp.HonestAnswerDenied | internal/app/server/server.go:125 | the client's honest answer, the choice, does not equal `c.Hash()`, so it is denied |
| ServerApp.HonestExchangeTimesOut | internal/app/server/server.go:117-120 | a client that sends its answer and then waits for the reply makes `handle` fail with a read timeout, and no verdict is sent |
| ServerApp.ClientCannotReadChallenge | internal/app/server/server.go:112 | a challenge written without a sentinel, whose encoding holds no `\n`, makes the client's framed `Read` run into its deadline |
| ServerApp.ClientCannotReadVerdict | internal/app/server/server.go:129 | `accessDenied` sent without a sentinel and then closed makes the client's framed `Read` fail with `ErrConnClosed` |
| ServerApp.Handle | internal/app/server/server.go:90-133 | `handle` draws `Generate`'s challenge, and its effect and error are those of `HandleSpec` |
| ServerApp.IntendedVerdict | internal/app/server/server.go:124-128 | corrected check: the verdict is the resource or `accessDenied`, and the resource when the answer is the choice |
| ServerApp.IntendedVerdictExact | internal/app/server/server.go:124-128 | corrected check: the resource is sent exactly when the answer is the choice, and the denial for any other string |
| ServerApp.IntendedHandleSpec | internal/app/server/server.go:90-133 | the corrected handler closes the connection on every path |
| ServerApp.IntendedHandleGrants | internal/app/server/server.go:106-131 | with the corrected handler, an honest framed answer in any split is granted: the wire carries the framed challenge and then the framed resource, and no error is returned |
| ServerApp.IntendedVerdictReadable | internal/app/server/server.go:129 | a framed denial, split in any way, is read back by the client's `Read` as the message |
| ServerApp.IntendedHandle | internal/app/server/server.go:90-133 | the corrected handler has the effect and the error of `IntendedHandleSpec` |

## Left out

- Listener lifecycle and concurrency are not modelled: `New`, `Start`, `Stop`, `serve`, the goroutines, the `WaitGroup`, the `stopped` channel and the `handlerTtl` watchdog (server.go:32-101). They concern scheduling and shutdown, not the sequential protocol.
- Time is not modelled. `SetReadDeadline` reports a scripted outcome. An elapsed deadline is a read script that has run out, which gives a `Timeout` read error.
- SHA-1 is a function parameter `digest`. Two properties of it are assumed, each only by the lemmas that state it in their contract: `HexSha1Length`, the 40-character length of its hexadecimal form, and, in ClientApp.RunAnswersChallenge and the second half of ClientApp.SolverFindsChoice, that no other token of the set has the choice's digest. Collision resistance is not modelled; without it the client may send another token with the same digest.
- `math/rand` and its `init` seeding are replaced by an arbitrary stream of numbers. ChallengeEntity.Rand.Intn reduces the next number modulo `n`, so it does not model uniformity.
- `gob` encoding and decoding are parameters that return a `Result`. `NewRequest` is kept only as the record it builds. The `Decode` call and the `req.Set`/`req.Answer` fields used by client.go do not match request.go, so the client's decoded request is a plain record of set and answer. `gob` also refuses structs with no exported fields, which request.go's `Request` is. So the real `Encode` probably always fails, which the parameter lets the model cover as one outcome among others.
- The `wow` resource provider is not part of this model; its `Get()` is the `resource` parameter.
- Logging (logrus, the resolve timer, the server's "received" line) is left out because it has no effect on the protocol.
- session.go, pkg/dotenv, pkg/shutdown and the cmd mains are not part of this model.
- Error messages are modelled as datatype constructors (`ConnClosed` for `ErrConnClosed`, `EmptyBuffer`, `ReadFailed`, `DeadlineFailed`, and the handler's and client's wrappers), not as text.
- Net.WriteOnce: a failing write accepts no bytes, though an `io.Writer` may report some bytes along with an error. Both loops return on the error and never use those bytes, but such bytes would still be on the wire.
- Net.WriteOnce: a write after the write script runs out fails with `Reset`. This stands for a peer that has gone away.
- Net.ReadOnce: end of stream is delivered with no data, and data delivered with `io.EOF` is modelled as a data read followed by an end-of-stream read. The server's `read` treats the two the same. The framing `Read` does not when that chunk ends in `\n`: readwrite.go:46-48 then returns `ErrConnClosed`, where the model returns the message. `net.TCPConn` never returns data together with `io.EOF`, so the model covers the connections the program uses.
- ServerApp.Handle: the generated challenge is not returned. Its contract names it through `Generate` on the generator's stream.

## Findings

| source | as written | input that shows it | evidently intended | confidence | as-written member | corrected member |
|---|---|---|---|---|---|---|
| internal/app/server/server.go:150-165 | after a zero-length read, `read` returns the whole 2048-byte buffer, not the bytes received | the answer `abcde` in one read, then end of stream: `read` returns `abcde` followed by 2043 zero bytes | return the answer itself, read up to its sentinel as the shared `Read` does | high; not executed | ServerApp.ServerReadPadsAnswer | ServerApp.IntendedHandleGrants |
| internal/app/server/server.go:155-164 | `read` only stops at a zero-length read or end of stream, and ignores the `\n` the client sends | the client sends `token\n` and waits for the verdict: the server's read hits its deadline and `handle` sends no verdict | stop at the sentinel, as the shared `Read` does | high; not executed | ServerApp.HonestExchangeTimesOut | ServerApp.IntendedHandleGrants |
| internal/app/server/server.go:125 | the received answer is compared with `c.Hash()`, the digest, but client.go:42 sends the token itself | a challenge whose choice is `abcde`: the client sends `abcde`, which is not the 40-character digest, so it is denied | grant exactly when the answer is the choice | high; not executed | ServerApp.HonestAnswerDenied | ServerApp.IntendedVerdictExact |
| internal/app/server/server.go:112 | the challenge goes out through the server's own `write`, which sends no `\n`, and the server then waits for the answer | an encoded challenge with no `\n` byte: the client's `Read` waits for a sentinel that never comes, until its deadline | send the challenge framed, as the client's `Read` expects | high; not executed | ServerApp.ClientCannotReadChallenge | ServerApp.IntendedHandleGrants |
| internal/app/server/server.go:129 | the verdict goes out through the server's own `write`, which sends no `\n` | `Error: access denied` followed by the server closing the connection: the client's `Read` returns "connection closed" instead of the message | send the verdict framed, as the client's `Read` expects | high; not executed | ServerApp.ClientCannotReadVerdict | ServerApp.IntendedVerdictReadable |

The first and third rows together mean that `handle` as written denies every
peer: the 2048 bytes it reads never equal a 40-character digest
(ServerApp.HandleNeverGrants). `ServerApp.IntendedHandle` is the handler with
all five corrections. It is proved equal to `IntendedHandleSpec`, and
`IntendedHandleGrants` shows that this handler grants an honest client.
