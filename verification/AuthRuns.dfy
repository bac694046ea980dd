/**
 * Every run of the authorization pipeline: sign-ins that take time and interleave, clients that
 * present any token they hold or make up, and a clock that never goes back.
 */
module AuthRuns {
  import opened Wrappers
  import opened AuthSettings
  import opened Directory
  import opened LdapFilter
  import opened Tokens

  /** A sign-in in progress, one phase per step of the server that takes time. */
  datatype SignIn =
    | Began(repo: string, username: string, start: nat)
    | Welcomed(repo: string, username: string, start: nat, server: Server)
    | Stamped(repo: string, username: string, start: nat, server: Server, t1: nat)

  /** What happened, in order. */
  datatype Event =
    | Issued(repo: string, username: string, start: nat, server: Server, t1: nat, t2: nat)
    | Passed(repo: string, claims: Claims, at: nat)

  datatype State = State(now: nat, config: Stored, pending: map<nat, SignIn>, events: seq<Event>)

  /** The claims of the token that an issue event hands out. */
  ghost function ClaimsOf(e: Event): Claims
    requires e.Issued?
  {
    Generate(e.repo, e.t1, e.t2).claims
  }

  ghost predicate Init(s: State) {
    s.pending == map[] && s.events == []
  }

  ghost predicate Tick(s: State, s': State) {
    s'.now >= s.now && s' == s.(now := s'.now)
  }

  ghost predicate Begin(s: State, s': State, id: nat, repo: string, username: string) {
    id !in s.pending && s' == s.(pending := s.pending[id := Began(repo, username, s.now)])
  }

  /** Settings are looked up, which may rewrite the stored entry, and the directory is searched. */
  ghost predicate LookUp(s: State, s': State, id: nat, r: Answer, server: Server) {
    && id in s.pending && s.pending[id].Began?
    && var b := s.pending[id];
    && Call(s.config, b.repo, s'.config, r)
    && r.Uses? && SearchSucceeds(server, b.username, r.settings)
    && s' == s.(config := s'.config, pending := s.pending[id := Welcomed(b.repo, b.username, b.start, server)])
  }

  /** The clock is read for the expiry. */
  ghost predicate Stamp(s: State, s': State, id: nat) {
    && id in s.pending && s.pending[id].Welcomed?
    && var b := s.pending[id];
    s' == s.(pending := s.pending[id := Stamped(b.repo, b.username, b.start, b.server, s.now)])
  }

  /** The clock is read again for the issue, and the token is signed. */
  ghost predicate Sign(s: State, s': State, id: nat) {
    && id in s.pending && s.pending[id].Stamped?
    && var b := s.pending[id];
    s' == s.(pending := s.pending - {id},
             events := s.events + [Issued(b.repo, b.username, b.start, b.server, b.t1, s.now)])
  }

  /** A sign-in ends without a token; the look-up may have rewritten the entry all the same. */
  ghost predicate Abandon(s: State, s': State, id: nat, r: Answer) {
    && id in s.pending
    && (s'.config == s.config || Call(s.config, s.pending[id].repo, s'.config, r))
    && s' == s.(config := s'.config, pending := s.pending - {id})
  }

  /** Signatures cannot be forged: whatever verifies was issued here before. */
  ghost predicate Unforgeable(s: State, tok: Token) {
    tok.Token? && tok.verifies ==>
      exists i :: 0 <= i < |s.events| && s.events[i].Issued? && ClaimsOf(s.events[i]) == tok.claims
  }

  /** A session that a client can present: any values under any names, but no forged token. */
  ghost predicate Presentable(s: State, session: Option<map<string, SessionValue>>) {
    session.Some? ==> forall q <- session.value | session.value[q].Presented? :: Unforgeable(s, session.value[q].token)
  }

  /** A request comes to the gate with a session; if the gate lets it through, that is recorded. */
  ghost predicate Request(s: State, s': State, session: Option<map<string, SessionValue>>, repo: string) {
    && Presentable(s, session)
    && s' == if !Gate(session, repo, s.now).Next? then s
             else s.(events := s.events + [Passed(repo, session.value[repo].token.claims, s.now)])
  }

  ghost predicate Next(s: State, s': State) {
    || Tick(s, s')
    || (exists id, repo, username :: Begin(s, s', id, repo, username))
    || (exists id, r, server: Server :: LookUp(s, s', id, r, server))
    || (exists id :: Stamp(s, s', id))
    || (exists id :: Sign(s, s', id))
    || (exists id, r :: Abandon(s, s', id, r))
    || (exists session, repo :: Request(s, s', session, repo))
  }

  // ----- What every step keeps -----

  /** A sign-in in progress, measured against the initial configuration `c`. */
  ghost predicate Sound(c: Stored, b: SignIn, now: nat) {
    && b.start <= now
    && (!b.Began? ==> Welcomes(b.server, b.username, Effective(c, b.repo)))
    && (b.Stamped? ==> b.start <= b.t1 <= now)
  }

  /** A token was issued to a user whom the directory then welcomed to the repository. */
  ghost predicate Earned(c: Stored, e: Event, now: nat) {
    e.Issued? && e.start <= e.t1 <= e.t2 <= now && Welcomes(e.server, e.username, Effective(c, e.repo))
  }

  /** Event `j` is the sign-in behind the passed request `e`. */
  ghost predicate Behind(c: Stored, events: seq<Event>, j: int, e: Event)
    requires e.Passed?
  {
    && 0 <= j < |events| && Earned(c, events[j], e.at)
    && events[j].repo == e.repo && ClaimsOf(events[j]) == e.claims
    && Unix(events[j].t2) <= Unix(e.at) <= Unix(events[j].t1) + 43200
  }

  ghost predicate Inv(c: Stored, s: State) {
    && (forall q :: Effective(s.config, q) == Effective(c, q))
    && (forall id <- s.pending :: Sound(c, s.pending[id], s.now))
    && (forall i | 0 <= i < |s.events| && s.events[i].Issued? :: Earned(c, s.events[i], s.now))
    && (forall i | 0 <= i < |s.events| && s.events[i].Passed? ::
          exists j :: Behind(c, s.events[..i], j, s.events[i]))
  }

  lemma InitInv(s: State)
    requires Init(s)
    ensures Inv(s.config, s)
  {
  }

  lemma TickInv(c: Stored, s: State, s': State)
    requires Inv(c, s) && Tick(s, s')
    ensures Inv(c, s')
  {
    hide Welcomes, Effective;
  }

  lemma LookUpInv(c: Stored, s: State, s': State, id: nat, r: Answer, server: Server)
    requires Inv(c, s) && LookUp(s, s', id, r, server)
    ensures Inv(c, s')
  {
    var b := s.pending[id];
    hide Welcomes, Effective, Call, SearchSucceeds;
    CallKeepsEffective(s.config, b.repo, s'.config, r);
    ConfigAndFilter(s.config, b.repo, s'.config, r, server, b.username);
  }

  lemma AbandonInv(c: Stored, s: State, s': State, id: nat, r: Answer)
    requires Inv(c, s) && Abandon(s, s', id, r)
    ensures Inv(c, s')
  {
    hide Welcomes, Effective, Call;
    if s'.config != s.config {
      CallKeepsEffective(s.config, s.pending[id].repo, s'.config, r);
    }
  }

  lemma StampInv(c: Stored, s: State, s': State, id: nat)
    requires Inv(c, s) && Stamp(s, s', id)
    ensures Inv(c, s')
  {
    hide Welcomes, Effective;
  }

  /** Appending an event that is itself accounted for. */
  lemma AppendInv(c: Stored, s: State, s': State, e: Event)
    requires Inv(c, s) && s'.events == s.events + [e] && s'.now == s.now && s'.config == s.config
    requires forall id <- s'.pending :: id in s.pending && s'.pending[id] == s.pending[id]
    requires if e.Issued? then Earned(c, e, s.now) else exists j :: Behind(c, s.events, j, e)
    ensures Inv(c, s')
  {
    hide Earned, Behind, Sound, Effective;
    forall i | 0 <= i < |s'.events| && s'.events[i].Passed?
      ensures exists j :: Behind(c, s'.events[..i], j, s'.events[i])
    {
      if i < |s.events| {
        assert s'.events[..i] == s.events[..i];
      } else {
        assert s'.events[..i] == s.events;
      }
    }
  }

  lemma SignInv(c: Stored, s: State, s': State, id: nat)
    requires Inv(c, s) && Sign(s, s', id)
    ensures Inv(c, s')
  {
    hide Welcomes, Effective;
    var b := s.pending[id];
    AppendInv(c, s, s', Issued(b.repo, b.username, b.start, b.server, b.t1, s.now));
  }

  lemma RequestInv(c: Stored, s: State, s': State, session: Option<map<string, SessionValue>>, repo: string)
    requires Inv(c, s) && Request(s, s', session, repo)
    ensures Inv(c, s')
  {
    if Gate(session, repo, s.now).Next? {
      var tok := session.value[repo].token;
      assert Unforgeable(s, tok);
      var i :| 0 <= i < |s.events| && s.events[i].Issued? && ClaimsOf(s.events[i]) == tok.claims;
      var e := s.events[i];
      hide Welcomes, Effective, Unix, Inv;
      assert Earned(c, e, s.now) by { IssuedEarned(c, s, i); }
      GeneratedOpens(e.repo, e.t1, e.t2, repo, s.now);
      assert Behind(c, s.events, i, Passed(repo, tok.claims, s.now));
      AppendInv(c, s, s', Passed(repo, tok.claims, s.now));
    }
  }

  lemma IssuedEarned(c: Stored, s: State, i: nat)
    requires Inv(c, s) && i < |s.events| && s.events[i].Issued?
    ensures Earned(c, s.events[i], s.now)
  {
  }

  lemma NextInv(c: Stored, s: State, s': State)
    requires Inv(c, s) && Next(s, s')
    ensures Inv(c, s')
  {
    hide Inv, Tick, Begin, LookUp, Stamp, Sign, Abandon, Request;
    if Tick(s, s') {
      TickInv(c, s, s');
    } else if exists id, repo, username :: Begin(s, s', id, repo, username) {
      var id, repo, username :| Begin(s, s', id, repo, username);
      BeginInv(c, s, s', id, repo, username);
    } else if exists id, r, server: Server :: LookUp(s, s', id, r, server) {
      var id, r, server: Server :| LookUp(s, s', id, r, server);
      LookUpInv(c, s, s', id, r, server);
    } else if exists id :: Stamp(s, s', id) {
      var id :| Stamp(s, s', id);
      StampInv(c, s, s', id);
    } else if exists id :: Sign(s, s', id) {
      var id :| Sign(s, s', id);
      SignInv(c, s, s', id);
    } else if exists id, r :: Abandon(s, s', id, r) {
      var id, r :| Abandon(s, s', id, r);
      AbandonInv(c, s, s', id, r);
    } else {
      var session, repo :| Request(s, s', session, repo);
      RequestInv(c, s, s', session, repo);
    }
  }

  lemma BeginInv(c: Stored, s: State, s': State, id: nat, repo: string, username: string)
    requires Inv(c, s) && Begin(s, s', id, repo, username)
    ensures Inv(c, s')
  {
    hide Welcomes, Effective;
  }

  // ----- Every run -----

  ghost predicate Steps(trace: seq<State>) {
    trace != [] && forall i | 0 <= i < |trace| - 1 :: Next(trace[i], trace[i + 1])
  }

  ghost predicate Run(trace: seq<State>) {
    Steps(trace) && Init(trace[0])
  }

  lemma {:induction false} RunInv(trace: seq<State>, n: nat)
    requires Run(trace) && n < |trace|
    ensures Inv(trace[0].config, trace[n])
    decreases n
  {
    hide Inv, Next;
    if n == 0 {
      InitInv(trace[0]);
    } else {
      RunInv(trace, n - 1);
      assert Next(trace[n - 1], trace[(n - 1) + 1]);
      NextInv(trace[0].config, trace[n - 1], trace[n]);
    }
  }

  /**
   * In every run, a request that passed for a repository comes after a sign-in to that repository
   * by a user whom the directory welcomed under the initial configuration; it lies between the
   * token's issue and twelve hours after its expiry was read.
   */
  lemma PassedWasEarned(trace: seq<State>, n: nat, i: nat)
    requires Run(trace) && n < |trace| && i < |trace[n].events| && trace[n].events[i].Passed?
    ensures var c, events := trace[0].config, trace[n].events;
      exists j :: 0 <= j < i && Behind(c, events, j, events[i])
  {
    hide Next, Unix, Welcomes, Effective;
    RunInv(trace, n);
    var c, events := trace[0].config, trace[n].events;
    var j :| Behind(c, events[..i], j, events[i]);
    assert events[..i][j] == events[j];
    assert Behind(c, events, j, events[i]);
  }

  /** The same in instants: no token opens anything twelve hours and one second after its stamp. */
  lemma PassedInTime(trace: seq<State>, n: nat, i: nat)
    requires Run(trace) && n < |trace| && i < |trace[n].events| && trace[n].events[i].Passed?
    ensures var e := trace[n].events[i];
      exists j :: && 0 <= j < i && trace[n].events[j].Issued? && trace[n].events[j].repo == e.repo
                  && trace[n].events[j].start <= trace[n].events[j].t2 <= e.at
                  && e.at < trace[n].events[j].t1 + 43_201_000_000_000
  {
    hide Next, Unix, Welcomes, Effective, Run;
    PassedWasEarned(trace, n, i);
    var e := trace[n].events[i];
    var j :| 0 <= j < i && Behind(trace[0].config, trace[n].events, j, e);
    var b := trace[n].events[j];
    GeneratedOpens(b.repo, b.t1, b.t2, b.repo, e.at);
    OpenInstants(b.repo, b.t1, b.t2, e.at);
  }

  /**
   * Twelve hours from when the sign-in began is not what the expiry keeps to. It does so exactly
   * when the clock still showed the same second once the directory had answered.
   */
  lemma ExpiryInRuns(trace: seq<State>, n: nat, i: nat)
    requires Run(trace) && n < |trace| && i < |trace[n].events| && trace[n].events[i].Issued?
    ensures var e := trace[n].events[i];
      ClaimsOf(e).expiresAt <= Unix(e.start) + 43200 <==> Unix(e.t1) == Unix(e.start)
  {
    hide Run, Inv, Unix;
    RunInv(trace, n);
    var e := trace[n].events[i];
    IssuedEarned(trace[0].config, trace[n], i);
    ExpiryFromStart(e.repo, e.start, e.t1, e.t2);
  }

  // ----- What runs there are -----

  lemma Extend(trace: seq<State>, s: State)
    requires Steps(trace) && Next(trace[|trace| - 1], s)
    ensures Steps(trace + [s])
  {
    hide Next;
  }

  lemma Precede(s: State, trace: seq<State>)
    requires Steps(trace) && Next(s, trace[0])
    ensures Steps([s] + trace) && ([s] + trace)[|trace|] == trace[|trace| - 1]
  {
    hide Next;
  }

  /** The state that a sign-in leaves behind when it goes through. */
  ghost function SignedIn(s: State, id: nat, config: Stored, server: Server, t1: nat, t2: nat): State
    requires id in s.pending
  {
    var b := s.pending[id];
    s.(now := t2, config := config, pending := s.pending - {id},
       events := s.events + [Issued(b.repo, b.username, b.start, server, t1, t2)])
  }

  /** The steps of a sign-in that goes through: look-up, clock, stamp, clock, signature. */
  lemma SignInSteps(s: State, id: nat, config: Stored, r: Answer, server: Server, t1: nat, t2: nat)
      returns (steps: seq<State>)
    requires id in s.pending && s.pending[id].Began? && s.now <= t1 <= t2
    requires Call(s.config, s.pending[id].repo, config, r) && r.Uses?
    requires SearchSucceeds(server, s.pending[id].username, r.settings)
    ensures Steps(steps) && steps[0] == s && steps[|steps| - 1] == SignedIn(s, id, config, server, t1, t2)
  {
    hide Call, SearchSucceeds;
    var b := s.pending[id];
    var s1 := s.(config := config, pending := s.pending[id := Welcomed(b.repo, b.username, b.start, server)]);
    assert LookUp(s, s1, id, r, server);
    var s2 := s1.(now := t1);
    assert Tick(s1, s2);
    var s3 := s2.(pending := s2.pending[id := Stamped(b.repo, b.username, b.start, server, t1)]);
    assert Stamp(s2, s3, id);
    var s4 := s3.(now := t2);
    assert Tick(s3, s4);
    var s5 := SignedIn(s, id, config, server, t1, t2);
    assert s4.pending - {id} == s.pending - {id};
    assert Sign(s4, s5, id);
    steps := [s, s1, s2, s3, s4, s5];
    hide Next;
  }

  ghost predicate Reaches(s: State, s': State) {
    exists steps :: Steps(steps) && steps[0] == s && steps[|steps| - 1] == s'
  }

  /** Wherever such a sign-in is under way, it can run to its end, with this outcome. */
  ghost predicate MaySucceed(c: Stored, c': Stored, repo: string, username: string, server: Server, t1: nat, t2: nat) {
    forall s: State, id <- s.pending |
      s.config == c && s.pending[id] == Began(repo, username, s.pending[id].start) && s.now <= t1 <= t2 ::
      Reaches(s, SignedIn(s, id, c', server, t1, t2))
  }

  /** Wherever such a sign-in is under way, it can end without a token. */
  ghost predicate MayFail(c: Stored, c': Stored, repo: string) {
    forall s: State, id <- s.pending | s.config == c && s.pending[id].repo == repo ::
      Next(s, s.(config := c', pending := s.pending - {id}))
  }

  lemma Succeeds(c: Stored, c': Stored, r: Answer, repo: string, username: string, server: Server, t1: nat, t2: nat)
    requires Call(c, repo, c', r) && r.Uses? && SearchSucceeds(server, username, r.settings)
    ensures MaySucceed(c, c', repo, username, server, t1, t2)
  {
    hide Call, SearchSucceeds, Steps;
    forall s: State, id <- s.pending |
      s.config == c && s.pending[id] == Began(repo, username, s.pending[id].start) && s.now <= t1 <= t2
      ensures Reaches(s, SignedIn(s, id, c', server, t1, t2))
    {
      var steps := SignInSteps(s, id, c', r, server, t1, t2);
    }
  }

  lemma Fails(c: Stored, c': Stored, r: Answer, repo: string)
    requires c' == c || Call(c, repo, c', r)
    ensures MayFail(c, c', repo)
  {
    hide Call;
    forall s: State, id <- s.pending | s.config == c && s.pending[id].repo == repo
      ensures Next(s, s.(config := c', pending := s.pending - {id}))
    {
      assert Abandon(s, s.(config := c', pending := s.pending - {id}), id, r);
    }
  }

  /**
   * The converse of `PassedWasEarned`: for every configuration, every user whom the directory
   * welcomes and every timing, there is a run in which the token passes, up to its last instant.
   */
  lemma EarnedCanPass(c: Stored, repo: string, c': Stored, r: Answer, server: Server, username: string,
                      start: nat, t1: nat, t2: nat, at: nat)
      returns (trace: seq<State>)
    requires Call(c, repo, c', r) && r.Uses? && Welcomes(server, username, Effective(c, repo))
    requires start <= t1 <= t2 <= at && Unix(at) <= Unix(t1) + 43200
    ensures Run(trace) && trace[0].config == c
    ensures var e := Issued(repo, username, start, server, t1, t2);
      trace[|trace| - 1].events == [e, Passed(repo, ClaimsOf(e), at)]
  {
    hide Call, Welcomes, Effective, SearchSucceeds, Unix, Next, Steps;
    ConfigAndFilter(c, repo, c', r, server, username);
    var s0 := State(start, c, map[], []);
    var s1 := s0.(pending := map[0 := Began(repo, username, start)]);
    BeginStep(s0, s1, 0, repo, username);
    var steps := SignInSteps(s1, 0, c', r, server, t1, t2);
    Precede(s0, steps);
    var s2 := SignedIn(s1, 0, c', server, t1, t2);
    var s3 := s2.(now := at);
    TickStep(s2, s3);
    Extend([s0] + steps, s3);
    var e := Issued(repo, username, start, server, t1, t2);
    assert s3.events == [e];
    var s4 := s3.(events := [e, Passed(repo, ClaimsOf(e), at)]);
    PassStep(s3, s4, e);
    trace := [s0] + steps + [s3] + [s4];
    Extend([s0] + steps + [s3], s4);
  }

  lemma BeginStep(s: State, s': State, id: nat, repo: string, username: string)
    requires Begin(s, s', id, repo, username)
    ensures Next(s, s')
  {
  }

  lemma TickStep(s: State, s': State)
    requires Tick(s, s')
    ensures Next(s, s')
  {
  }

  /** The client presents the token it was issued, in time. */
  lemma PassStep(s: State, s': State, e: Event)
    requires e.Issued? && e in s.events && s' == s.(events := s.events + [Passed(e.repo, ClaimsOf(e), s.now)])
    requires e.t2 <= s.now && Unix(s.now) <= Unix(e.t1) + 43200
    ensures Next(s, s')
  {
    var tok := Generate(e.repo, e.t1, e.t2);
    GeneratedOpens(e.repo, e.t1, e.t2, e.repo, s.now);
    UnixMonotone(e.t2, s.now);
    hide Unix, ClaimsValid;
    assert Unforgeable(s, tok);
    var session := Some(map[e.repo := Presented(tok)]);
    assert Request(s, s', session, e.repo);
  }

  /** One entry, in one group. */
  const KES: Stored := Stored(None, map["kes" := Some(Settings("dc=kes", "kes", "ldap", ["dev"], 5))])
  const KES_SERVER: Server := Server([map["sAMAccountName" := {"anna"}, "memberOf" := {"dev"}]], f => false)

  lemma AnnaWelcomed()
    ensures Call(KES, "kes", KES, Uses(KES.entries["kes"].value))
    ensures Welcomes(KES_SERVER, "anna", Effective(KES, "kes"))
  {
    var e := KES_SERVER.entries[0];
    var groups := Effective(KES, "kes").groups;
    assert "dev" in Elements(["dev"]);
    assert groups == Elements(["dev"]);
    assert Has(e, "memberOf", "dev") && Has(e, "sAMAccountName", "anna");
    assert Admits(e, "anna", groups);
    assert KES_SERVER.entries[1..] == [];
    assert |Admitted(KES_SERVER.entries, "anna", groups)| == 1;
  }

  lemma NextSecond(t: nat)
    ensures Unix(t + SECOND) == Unix(t) + 1
  {
  }

  /**
   * Runs that outlive the twelve hours, from any instant on: the directory takes a second to
   * answer, and a request passes twelve hours and one second after the sign-in began.
   */
  lemma SlowDirectory(start: nat) returns (trace: seq<State>)
    ensures Run(trace)
    ensures var events := trace[|trace| - 1].events;
      && |events| == 2 && events[0].Issued? && events[1].Passed?
      && events[1].repo == events[0].repo && events[1].claims == ClaimsOf(events[0])
      && events[0].start == start && events[0].t1 == start + 1_000_000_000
      && events[1].claims.expiresAt > Unix(start) + 43200
      && events[1].at == start + 43_201_000_000_000
  {
    hide Run, Welcomes, Effective, Call, Unix;
    AnnaWelcomed();
    var t1 := start + SECOND;
    UnixLater(t1);
    NextSecond(start);
    trace := EarnedCanPass(KES, "kes", KES, Uses(KES.entries["kes"].value), KES_SERVER, "anna",
                           start, t1, t1, t1 + TOKEN_TTL);
  }
}
