/**
 * The puzzle handed to every connection (internal/domain/challenge/entity.go).
 *
 * A challenge is a set of 100..1023 random tokens of 5..9 characters drawn
 * from a fixed alphabet, plus one of them, the choice; its hash is the digest
 * of the choice. Random numbers come from a `Rand` whose output is an
 * arbitrary infinite stream, and the digest is a function supplied by the
 * caller, so every property below holds for every random outcome and every
 * digest.
 */
module ChallengeEntity {
  import opened Net

  const MaxSize := 1024
  const MinSize := 100
  const MaxLen := 10
  const MinLen := 5

  /**
   * The token alphabet "1234567890abcdefghijklmnopqrstuvwxyABCDEFGHIJKLMNOPQRSTUVWXYZ",
   * written as its three runs so that facts about its bytes can be checked run by run.
   * Lower-case 'z' is not part of it.
   */
  const Digits := Ascii("1234567890")
  const Lower := Ascii("abcdefghijklmnopqrstuvwxy")
  const Upper := Ascii("ABCDEFGHIJKLMNOPQRSTUVWXYZ")
  const Dict := Digits + Lower + Upper

  predicate IsAlphanumeric(b: byte)
  {
    48 <= b <= 57 || 97 <= b <= 122 || 65 <= b <= 90
  }

  lemma DigitsBytes()
    ensures forall b | b in Digits :: 48 <= b <= 57
  {
    assert Digits == [49, 50, 51, 52, 53, 54, 55, 56, 57, 48] by {
      assert "1234567890" == ['1', '2', '3', '4', '5', '6', '7', '8', '9', '0'];
    }
  }

  lemma LowerBytes()
    ensures forall b | b in Lower :: 97 <= b <= 121
  {
    assert Lower == [97, 98, 99, 100, 101, 102, 103, 104, 105, 106, 107, 108, 109,
                     110, 111, 112, 113, 114, 115, 116, 117, 118, 119, 120, 121] by {
      assert "abcdefghijklmnopqrstuvwxy" == ['a', 'b', 'c', 'd', 'e', 'f', 'g', 'h', 'i', 'j', 'k', 'l', 'm',
                                             'n', 'o', 'p', 'q', 'r', 's', 't', 'u', 'v', 'w', 'x', 'y'];
    }
  }

  lemma UpperBytes()
    ensures forall b | b in Upper :: 65 <= b <= 90
  {
    assert Upper == [65, 66, 67, 68, 69, 70, 71, 72, 73, 74, 75, 76, 77,
                     78, 79, 80, 81, 82, 83, 84, 85, 86, 87, 88, 89, 90] by {
      assert "ABCDEFGHIJKLMNOPQRSTUVWXYZ" == ['A', 'B', 'C', 'D', 'E', 'F', 'G', 'H', 'I', 'J', 'K', 'L', 'M',
                                              'N', 'O', 'P', 'Q', 'R', 'S', 'T', 'U', 'V', 'W', 'X', 'Y', 'Z'];
    }
  }

  /**
   * The alphabet has 61 letters and digits; it holds neither the newline byte
   * (10), which frames messages, nor 'z' (122).
   */
  lemma DictAlphanumeric()
    ensures |Dict| == 61
    ensures forall b | b in Dict :: IsAlphanumeric(b)
    ensures 10 !in Dict && 122 !in Dict
  {
    DigitsBytes();
    LowerBytes();
    UpperBytes();
  }

  /** A process-wide random source: `Intn(n)` is the next number of the stream, reduced into [0, n). */
  class Rand {
    const stream: nat -> nat
    var pos: nat

    constructor (stream: nat -> nat)
      ensures this.stream == stream && pos == 0
    {
      this.stream := stream;
      pos := 0;
    }

    method Intn(n: nat) returns (k: nat)
      requires n > 0
      modifies this
      ensures k < n && k == stream(old(pos)) % n
      ensures pos == old(pos) + 1
    {
      k := stream(pos) % n;
      pos := pos + 1;
    }
  }

  /** A token as `NewChallenge` produces it. */
  predicate WellFormedToken(t: Bytes)
  {
    MinLen <= |t| < MaxLen && forall i | 0 <= i < |t| :: t[i] in Dict
  }

  function TokenLength(stream: nat -> nat, p: nat): nat
  {
    stream(p) % (MaxLen - MinLen) + MinLen
  }

  /**
   * The token `rndString` draws from position `p`: one draw for its length,
   * then one draw per character. Every such token is well formed.
   */
  function TokenAt(stream: nat -> nat, p: nat): (t: Bytes)
    ensures MinLen <= |t| < MaxLen
  {
    seq(TokenLength(stream, p), i requires 0 <= i => Dict[stream(p + 1 + i) % |Dict|])
  }

  /** The position after the draws of `TokenAt(stream, p)`. */
  function TokenEnd(stream: nat -> nat, p: nat): (q: nat)
    ensures q == p + 1 + |TokenAt(stream, p)|
  {
    p + 1 + TokenLength(stream, p)
  }

  /** `k` tokens drawn one after another from position `p`, and the position after them. */
  function DrawTokens(stream: nat -> nat, p: nat, k: nat): (r: (seq<Bytes>, nat))
    ensures |r.0| == k
    ensures r.1 >= p
  {
    if k == 0 then ([], p)
    else
      var (ts, q) := DrawTokens(stream, p, k - 1);
      (ts + [TokenAt(stream, q)], TokenEnd(stream, q))
  }

  /** Character `i` of a token is the alphabet letter at the `i`-th character draw, reduced modulo the alphabet's size. */
  lemma TokenAtChar(stream: nat -> nat, p: nat, i: nat)
    requires i < TokenLength(stream, p)
    ensures TokenAt(stream, p)[i] == Dict[stream(p + 1 + i) % |Dict|]
  {
  }

  /** Every character of a drawn token is taken from the alphabet. */
  lemma TokenAtWellFormed(stream: nat -> nat, p: nat)
    ensures WellFormedToken(TokenAt(stream, p))
  {
    var t := TokenAt(stream, p);
    forall i | 0 <= i < |t|
      ensures t[i] in Dict
    {
      TokenAtChar(stream, p, i);
    }
  }

  /** Every token of a run of draws is well formed. */
  lemma {:induction false} DrawTokensWellFormed(stream: nat -> nat, p: nat, k: nat)
    ensures forall i | 0 <= i < k :: WellFormedToken(DrawTokens(stream, p, k).0[i])
  {
    if k > 0 {
      DrawTokensWellFormed(stream, p, k - 1);
      var (ts, q) := DrawTokens(stream, p, k - 1);
      TokenAtWellFormed(stream, q);
      assert DrawTokens(stream, p, k).0 == ts + [TokenAt(stream, q)];
    }
  }

  datatype Challenge = Challenge(tokens: seq<Bytes>, choice: Bytes, size: int)
  {
    /** The secret token; in a well-formed challenge it is one of the set and well formed itself. */
    function Choice(): (t: Bytes)
      ensures WellFormed(this) ==> t in Set() && WellFormedToken(t)
    {
      choice
    }

    /** The offered tokens; in a well-formed challenge there are `size` of them, the choice among them. */
    function Set(): (ts: seq<Bytes>)
      ensures WellFormed(this) ==> |ts| == size && choice in ts
    {
      tokens
    }

    /** The digest of the choice, recomputed on every call: 40 characters for a hexadecimal SHA-1. */
    function Hash(digest: Bytes -> Bytes): (h: Bytes)
      ensures HexSha1Length(digest) ==> |h| == DigestLength
    {
      digest(choice)
    }
  }

  /** What every challenge promises: its size bounds, its tokens, and a choice taken from its set. */
  predicate WellFormed(c: Challenge)
  {
    && MinSize <= c.size < MaxSize
    && |c.tokens| == c.size
    && (forall i | 0 <= i < |c.tokens| :: WellFormedToken(c.tokens[i]))
    && c.choice in c.tokens
  }

  /**
   * The challenge `NewChallenge` builds from stream position `p`, and the
   * position after it: one draw for the size, the tokens, one draw for the
   * index of the choice.
   */
  function Generate(stream: nat -> nat, p: nat): (r: (Challenge, nat))
    ensures MinSize <= r.0.size < MaxSize && |r.0.tokens| == r.0.size
    ensures r.1 > p
  {
    var size := stream(p) % (MaxSize - MinSize) + MinSize;
    var (tokens, q) := DrawTokens(stream, p + 1, size);
    (Challenge(tokens, tokens[stream(q) % size], size), q + 1)
  }

  /**
   * Every generated challenge is well formed: its size bounds, its tokens, and
   * a choice taken from its set, which is therefore never empty.
   */
  lemma GenerateWellFormed(stream: nat -> nat, p: nat)
    ensures WellFormed(Generate(stream, p).0)
    ensures Generate(stream, p).0.tokens != []
  {
    var size := stream(p) % (MaxSize - MinSize) + MinSize;
    DrawTokensWellFormed(stream, p + 1, size);
    var (tokens, q) := DrawTokens(stream, p + 1, size);
    assert Generate(stream, p).0 == Challenge(tokens, tokens[stream(q) % size], size);
  }

  /** `Hash` renders a 160-bit SHA-1 digest as lower-case hexadecimal: 40 characters. */
  const DigestLength := 40

  /** The one property of the digest that the model relies on, and only where it says so. */
  ghost predicate HexSha1Length(digest: Bytes -> Bytes)
  {
    forall x :: |digest(x)| == DigestLength
  }

  /** Two challenges with the same choice have the same hash: the set plays no part in it. */
  lemma HashDependsOnChoice(c1: Challenge, c2: Challenge, digest: Bytes -> Bytes)
    requires c1.choice == c2.choice
    ensures c1.Hash(digest) == c2.Hash(digest)
  {
  }

  /** Appending the next drawn character to the first `i` characters of a token gives its first `i + 1`. */
  lemma TokenStep(stream: nat -> nat, p: nat, i: nat, prefix: Bytes)
    requires i < TokenLength(stream, p) && prefix == TokenAt(stream, p)[..i]
    ensures prefix + [Dict[stream(p + 1 + i) % |Dict|]] == TokenAt(stream, p)[..i + 1]
  {
    var t := TokenAt(stream, p);
    TokenAtChar(stream, p, i);
    assert t[..i + 1] == t[..i] + [t[i]];
  }

  method RndString(rng: Rand) returns (s: Bytes)
    modifies rng
    ensures s == TokenAt(rng.stream, old(rng.pos))
    ensures rng.pos == TokenEnd(rng.stream, old(rng.pos))
  {
    ghost var stream, p := rng.stream, rng.pos;
    var dictLen := |Dict|;
    s := [];
    var l := rng.Intn(MaxLen - MinLen);
    l := l + MinLen;
    assert l == TokenLength(stream, p);
    for i := 0 to l
      invariant rng.stream == stream && rng.pos == p + 1 + i
      invariant s == TokenAt(stream, p)[..i]
    {
      var k := rng.Intn(dictLen);
      assert k == stream(p + 1 + i) % |Dict|;
      TokenStep(stream, p, i, s);
      s := s + [Dict[k]];
    }
    assert TokenAt(stream, p)[..l] == TokenAt(stream, p);
  }

  /** `Generate` from its parts: the size drawn first, the tokens drawn next, the choice's index drawn last. */
  lemma GenerateParts(stream: nat -> nat, p: nat, size: nat, tokens: seq<Bytes>, q: nat, k: nat)
    requires size == stream(p) % (MaxSize - MinSize) + MinSize
    requires (tokens, q) == DrawTokens(stream, p + 1, size)
    requires k == stream(q) % size
    ensures Generate(stream, p) == (Challenge(tokens, tokens[k], size), q + 1)
  {
  }

  method NewChallenge(rng: Rand) returns (c: Challenge)
    modifies rng
    ensures (c, rng.pos) == Generate(rng.stream, old(rng.pos))
  {
    var size := rng.Intn(MaxSize - MinSize);
    size := size + MinSize;
    var tokens := new Bytes[size];
    for i := 0 to size
      invariant (tokens[..i], rng.pos) == DrawTokens(rng.stream, old(rng.pos) + 1, i)
    {
      tokens[i] := RndString(rng);
      assert tokens[..i + 1] == tokens[..i] + [tokens[i]];
    }
    ghost var q := rng.pos;
    var k := rng.Intn(size);
    assert tokens[..] == tokens[..size];
    GenerateParts(rng.stream, old(rng.pos), size, tokens[..], q, k);
    c := Challenge(tokens[..], tokens[k], size);
  }
}
