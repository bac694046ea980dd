/** Session tokens: what a sign-in signs, and what a request is checked for. */
module Tokens {
  import opened Wrappers

  /** Time is in nanoseconds since the epoch. */
  const SECOND: nat := 1_000_000_000

  const TOKEN_TTL: nat := 12 * 3600 * SECOND

  function Unix(t: nat): nat {
    t / SECOND
  }

  datatype Claims = Claims(expiresAt: nat, issuedAt: nat, repo: string)

  /**
   * A presented string: not a token at all, or one with its claims, whether it names an HMAC
   * method, and whether its signature verifies under the server's key.
   */
  datatype Token = Garbage | Token(hmac: bool, verifies: bool, claims: Claims)

  /** `GenerateToken` reads the clock twice: at `t1` for the expiry, then at `t2` for the issue. */
  function Generate(repo: string, t1: nat, t2: nat): Token {
    Token(true, true, Claims(Unix(t1 + TOKEN_TTL), Unix(t2), repo))
  }

  /** The library's check of the standard claims; a zero claim counts as absent. */
  predicate ClaimsValid(c: Claims, now: nat) {
    && (c.expiresAt == 0 || Unix(now) <= c.expiresAt)
    && (c.issuedAt == 0 || Unix(now) >= c.issuedAt)
  }

  predicate ParseToken(tok: Token, repo: string, now: nat) {
    tok.Token? && tok.hmac && tok.verifies && ClaimsValid(tok.claims, now) && tok.claims.repo == repo
  }

  /** A generated token opens its own repository, from its issue for twelve hours, and nothing else. */
  lemma GeneratedOpens(repo: string, t1: nat, t2: nat, asked: string, now: nat)
    ensures ParseToken(Generate(repo, t1, t2), asked, now) <==>
      asked == repo && Unix(t2) <= Unix(now) <= Unix(t1) + 43200
  {
    UnixLater(t1);
  }

  lemma UnixLater(t: nat)
    ensures Unix(t + TOKEN_TTL) == Unix(t) + 43200
  {
    assert t + TOKEN_TTL == 43200 * SECOND + t;
  }

  /**
   * In instants, counted in nanoseconds: a token is good from its issue for the full twelve hours
   * after its clock was read, and never for a second longer.
   */
  lemma OpenInstants(repo: string, t1: nat, t2: nat, now: nat)
    ensures t2 <= now <= t1 + 43_200_000_000_000 ==> ParseToken(Generate(repo, t1, t2), repo, now)
    ensures ParseToken(Generate(repo, t1, t2), repo, now) ==> now < t1 + 43_201_000_000_000
    ensures ParseToken(Generate(repo, t1, t2), repo, now) ==> t2 < now + 1_000_000_000
  {
    GeneratedOpens(repo, t1, t2, repo, now);
    UnixLater(t1);
  }

  /**
   * Measured from the start of the sign-in, the expiry keeps within twelve hours exactly when the
   * clock still shows the same second once the directory has answered.
   */
  lemma ExpiryFromStart(repo: string, start: nat, t1: nat, t2: nat)
    requires start <= t1
    ensures Generate(repo, t1, t2).claims.expiresAt <= Unix(start) + 43200 <==> Unix(t1) == Unix(start)
  {
    UnixLater(t1);
    UnixMonotone(start, t1);
  }

  lemma UnixMonotone(a: nat, b: nat)
    requires a <= b
    ensures Unix(a) <= Unix(b)
  {
  }

  // ----- The gate -----

  /** What a session holds under a name: a string that is presented as a token, or something else. */
  datatype SessionValue = Presented(token: Token) | NotText

  datatype Reply = Status(code: nat) | Next | Panic

  /**
   * The gate in front of uploading and reindexing, over the values of a session; `None` stands for
   * a cookie that the store rejects, and a value that is not a string panics.
   */
  function Gate(session: Option<map<string, SessionValue>>, repo: string, now: nat): Reply {
    if session.None? then Status(500)
    else if repo !in session.value then Status(401)
    else match session.value[repo]
      case NotText => Panic
      case Presented(token) => if ParseToken(token, repo, now) then Next else Status(401)
  }

  /** A string that is no token, or one that is unsigned, forged, for another name, too old or too new. */
  predicate Closed(value: SessionValue, repo: string, now: nat) {
    && value.Presented?
    && (value.token.Garbage? ||
        var t := value.token;
        || !t.hmac || !t.verifies || t.claims.repo != repo
        || (t.claims.expiresAt != 0 && t.claims.expiresAt < Unix(now))
        || (t.claims.issuedAt != 0 && Unix(now) < t.claims.issuedAt))
  }

  /** When each answer is given, from the session and the claims alone. */
  lemma GateAnswers(session: Option<map<string, SessionValue>>, repo: string, now: nat)
    ensures var reply := Gate(session, repo, now);
      && (reply == Status(500) <==> session.None?)
      && (reply == Panic <==> session.Some? && repo in session.value && session.value[repo] == NotText)
      && (reply == Status(401) <==> session.Some? && (repo in session.value ==> Closed(session.value[repo], repo, now)))
      && reply in {Status(401), Status(500), Next, Panic}
  {
  }
}
