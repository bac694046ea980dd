/** The `signIn` handler and the `authenticate` middleware, over a session kept by the client. */
module SignIn {
  import AuthRuns
  import opened AuthSettings
  import opened Config
  import opened Directory
  import opened Tokens
  import opened Wrappers

  class Session {
    var values: map<string, SessionValue>
    var path: string
    var maxAge: int
    var httpOnly: bool
  }

  /** What the gate sees of a session; null stands for a cookie that the store rejects. */
  function ValuesOf(session: Session?): Option<map<string, SessionValue>>
    reads session
  {
    if session == null then None else Some(session.values)
  }

  /** The step from `s` to `s'` records that a request passed for the repository. */
  ghost predicate Records(s: AuthRuns.State, s': AuthRuns.State, repoName: string) {
    exists claims :: s'.events == s.events + [AuthRuns.Passed(repoName, claims, s.now)]
  }

  lemma RecordedIff(session: Option<map<string, SessionValue>>, repoName: string, now: nat)
    ensures forall s: AuthRuns.State, s' | s.now == now && AuthRuns.Request(s, s', session, repoName) ::
      if Gate(session, repoName, now) == Next then Records(s, s', repoName) else s' == s
  {
    hide ClaimsValid, AuthRuns.Presentable;
    forall s: AuthRuns.State, s' |
      s.now == now && AuthRuns.Request(s, s', session, repoName) && Gate(session, repoName, now) == Next
      ensures Records(s, s', repoName)
    {
      var claims := session.value[repoName].token.claims;
      assert s'.events == s.events + [AuthRuns.Passed(repoName, claims, s.now)];
    }
  }

  /**
   * The gate in front of uploading and reindexing. In any state of a run in which a client can
   * present this session, the request goes on exactly when the run records it as passed, so that
   * `AuthRuns.PassedWasEarned` holds of it; any other reply leaves no trace.
   */
  method Authenticate(session: Session?, repoName: string, now: nat) returns (reply: Reply)
    ensures reply == Gate(ValuesOf(session), repoName, now)
    ensures reply == Status(500) <==> session == null
    ensures reply == Panic <==> session != null && repoName in session.values && session.values[repoName] == NotText
    ensures reply == Status(401) <==>
      session != null && (repoName in session.values ==> Closed(session.values[repoName], repoName, now))
    ensures reply in {Status(401), Status(500), Next, Panic}
    ensures forall s: AuthRuns.State, s' | s.now == now && AuthRuns.Request(s, s', ValuesOf(session), repoName) ::
      && (reply == Next <==> Records(s, s', repoName))
      && (reply != Next <==> s' == s)
  {
    RecordedIff(ValuesOf(session), repoName, now);
    GateAnswers(ValuesOf(session), repoName, now);
    if session == null {
      return Status(500);
    }
    if repoName !in session.values {
      return Status(401);
    }
    match session.values[repoName]
    case NotText => return Panic;
    case Presented(token) =>
      if !ParseToken(token, repoName, now) {
        return Status(401);
      }
      return Next;
  }

  /** What the handler learns from outside: body, cookie path, saving, binding, directory and clock. */
  datatype World = World(username: Option<string>, cookiePath: Option<string>, saved: bool, maxAge: int,
                         bound: bool, server: Server, t1: nat, t2: nat)

  /** The reply, in terms of the settings in effect for the repository. */
  function ReplyTo(w: World, hasSession: bool, effect: Effect): Reply {
    if w.username.None? then Status(400)
    else if !hasSession then Status(500)
    else match effect
      case Crash => Panic
      case Unconfigured => Status(500)
      case Effect(_, _, _, _, _) =>
        if !(w.bound && Welcomes(w.server, w.username.value, effect)) then Status(401)
        else if w.cookiePath.None? || !w.saved then Status(500)
        else Status(200)
  }

  /** When each reply is given, from the stored configuration and the world alone. */
  lemma Replies(c: Stored, repo: string, w: World, hasSession: bool)
    ensures var reply := ReplyTo(w, hasSession, Effective(c, repo));
      && (reply == Status(400) <==> w.username.None?)
      && (reply == Panic <==> w.username.Some? && hasSession && Unanswerable(c, repo))
      && (reply == Status(401) <==>
            && w.username.Some? && hasSession && !Unanswerable(c, repo) && !NothingStored(c, repo)
            && !(w.bound && Welcomes(w.server, w.username.value, Effective(c, repo))))
      && (reply == Status(200) <==>
            && w.username.Some? && hasSession && w.bound && Welcomes(w.server, w.username.value, Effective(c, repo))
            && w.cookiePath.Some? && w.saved)
      && reply in {Status(200), Status(400), Status(401), Status(500), Panic}
  {
    WhatIsEffective(c, repo);
    hide Effective;
  }

  predicate Passes(w: World, effect: Effect) {
    w.username.Some? && effect.Effect? && w.bound && Welcomes(w.server, w.username.value, effect)
  }

  /** The outcome of looking up the settings and asking the service for a token. */
  datatype Grant = Crashed | Unset | Refused | Granted(token: Token)

  function GrantFor(w: World, repoName: string, username: string, effect: Effect): Grant {
    match effect
    case Crash => Crashed
    case Unconfigured => Unset
    case Effect(_, _, _, _, _) =>
      if w.bound && Welcomes(w.server, username, effect) then Granted(Generate(repoName, w.t1, w.t2)) else Refused
  }

  /** `GetRepoAuth` and `GenerateToken`: a token only for whom the settings in effect welcome. */
  method RequestToken(repos: Repositories, repoName: string, username: string, w: World) returns (grant: Grant)
    requires repos.Valid()
    modifies if repoName in repos.entries && repos.entries[repoName].auth != null
             then {repos.entries[repoName].auth} else {}
    ensures repos.Valid()
    ensures forall q :: Effective(repos.View(), q) == old(Effective(repos.View(), q))
    ensures grant == GrantFor(w, repoName, username, old(Effective(repos.View(), repoName)))
    ensures if grant.Granted?
      then AuthRuns.MaySucceed(old(repos.View()), repos.View(), repoName, username, w.server, w.t1, w.t2)
      else AuthRuns.MayFail(old(repos.View()), repos.View(), repoName)
  {
    hide Effective, Welcomes, Call, SearchSucceeds, Elements;
    ghost var before := repos.View();
    var panics, conf := repos.GetRepoAuth(repoName);
    ghost var answer := if panics then Panics else if conf == null then NoAuth else Uses(conf.Value());
    CallKeepsEffective(before, repoName, repos.View(), answer);
    AuthRuns.Fails(before, repos.View(), answer, repoName);
    if panics {
      return Crashed;
    }
    if conf == null {
      return Unset;
    }
    ConfigAndFilter(before, repoName, repos.View(), answer, w.server, username);
    if !w.bound || !SearchSucceeds(w.server, username, conf.Value()) {
      return Refused;
    }
    AuthRuns.Succeeds(before, repos.View(), answer, repoName, username, w.server, w.t1, w.t2);
    return Granted(Generate(repoName, w.t1, w.t2));
  }

  /** The end of the handler: the session's options and its token, when the cookie path is known. */
  method KeepToken(session: Session, repoName: string, token: Token, w: World) returns (reply: Reply)
    modifies session
    ensures reply == if w.cookiePath.Some? && w.saved then Status(200) else Status(500)
    ensures w.cookiePath.None? ==> unchanged(session)
    ensures w.cookiePath.Some? ==>
      && session.values == old(session.values)[repoName := Presented(token)]
      && session.path == w.cookiePath.value && session.maxAge == w.maxAge && !session.httpOnly
  {
    if w.cookiePath.None? {
      return Status(500);
    }
    session.path := w.cookiePath.value;
    session.maxAge := w.maxAge;
    session.httpOnly := false;
    session.values := session.values[repoName := Presented(token)];
    return if w.saved then Status(200) else Status(500);
  }

  /**
   * Signs a user in to a repository. The session gets a token only for a user that the settings in
   * effect welcome, and on success holds exactly that token besides what it held before; no
   * repository's effective settings change. Every outcome is one that the runs of the pipeline
   * have: with a token, the steps up to its issue; without, the step that abandons the sign-in.
   */
  method SignInTo(repos: Repositories, repoName: string, session: Session?, w: World) returns (reply: Reply)
    requires repos.Valid() && (session != null ==> session !in repos.Repr)
    modifies session
    modifies if repoName in repos.entries && repos.entries[repoName].auth != null
             then {repos.entries[repoName].auth} else {}
    ensures repos.Valid()
    ensures forall q :: Effective(repos.View(), q) == old(Effective(repos.View(), q))
    ensures reply == ReplyTo(w, session != null, old(Effective(repos.View(), repoName)))
    ensures reply == Status(400) <==> w.username.None?
    ensures reply == Panic <==> w.username.Some? && session != null && Unanswerable(old(repos.View()), repoName)
    ensures var c := old(repos.View());
      reply == Status(401) <==>
        && w.username.Some? && session != null && !Unanswerable(c, repoName) && !NothingStored(c, repoName)
        && !(w.bound && Welcomes(w.server, w.username.value, Effective(c, repoName)))
    ensures reply == Status(200) <==>
      && w.username.Some? && session != null
      && w.bound && Welcomes(w.server, w.username.value, Effective(old(repos.View()), repoName))
      && w.cookiePath.Some? && w.saved
    ensures reply in {Status(200), Status(400), Status(401), Status(500), Panic}
    ensures if !Passes(w, old(Effective(repos.View(), repoName))) || session == null
      then AuthRuns.MayFail(old(repos.View()), repos.View(), repoName)
      else AuthRuns.MaySucceed(old(repos.View()), repos.View(), repoName, w.username.value, w.server, w.t1, w.t2)
    ensures reply == Status(200) ==>
      && session.values == old(session.values)[repoName := Presented(Generate(repoName, w.t1, w.t2))]
      && session.path == w.cookiePath.value && session.maxAge == w.maxAge && !session.httpOnly
    ensures session != null && !(Passes(w, old(Effective(repos.View(), repoName))) && w.cookiePath.Some?) ==>
      unchanged(session)
  {
    hide Effective, Welcomes, AuthRuns.MayFail, AuthRuns.MaySucceed, Unanswerable, NothingStored;
    ghost var before := repos.View();
    AuthRuns.Fails(before, before, Panics, repoName);
    Replies(before, repoName, w, session != null);
    if w.username.None? {
      return Status(400);
    }
    if session == null {
      return Status(500);
    }
    var grant := RequestToken(repos, repoName, w.username.value, w);
    match grant
    case Crashed => return Panic;
    case Unset => return Status(500);
    case Refused => return Status(401);
    case Granted(token) =>
      reply := KeepToken(session, repoName, token, w);
  }

  /**
   * A sign-in and then a request with the same session. A user who is let in, with a cookie that can
   * be kept, gets through for the token's lifetime. The new token opens this repository from
   * its issue on for twelve hours; under any other name, and after a sign-in that made no token,
   * the gate decides as it would have before.
   */
  method SignInThenRequest(repos: Repositories, repoName: string, session: Session, w: World, asked: string, now: nat)
      returns (signedIn: Reply, reply: Reply)
    requires repos.Valid() && session !in repos.Repr
    modifies session
    modifies if repoName in repos.entries && repos.entries[repoName].auth != null
             then {repos.entries[repoName].auth} else {}
    ensures
      && w.username.Some? && w.bound && Welcomes(w.server, w.username.value, Effective(old(repos.View()), repoName))
      && w.cookiePath.Some? && w.saved && asked == repoName && Unix(w.t2) <= Unix(now) <= Unix(w.t1) + 43200 ==>
      signedIn == Status(200) && reply == Next
    ensures signedIn == Status(200) && asked == repoName ==>
      reply == if Unix(w.t2) <= Unix(now) <= Unix(w.t1) + 43200 then Next else Status(401)
    ensures (signedIn == Status(200) && asked != repoName) || !Passes(w, old(Effective(repos.View(), repoName))) ==>
      reply == Gate(Some(old(session.values)), asked, now)
  {
    hide Unix, ClaimsValid;
    signedIn := SignInTo(repos, repoName, session, w);
    GeneratedOpens(repoName, w.t1, w.t2, repoName, now);
    reply := Authenticate(session, asked, now);
  }
}
