/**
 * Which directory settings a repository is authenticated with: the call that merges a repository's
 * own settings with the defaults, and what it amounts to over any history of calls.
 */
module AuthSettings {
  import opened Wrappers

  datatype Settings = Settings(baseDN: string, domain: string, server: string, groups: seq<string>, timeout: int)

  /** The stored configuration: default settings, and the settings of each repository. */
  datatype Stored = Stored(default: Option<Settings>, entries: map<string, Option<Settings>>)

  /** What a call answers; a nil dereference panics. */
  datatype Answer = Panics | NoAuth | Uses(settings: Settings)

  predicate Incomplete(a: Settings) {
    a.server == "" || a.baseDN == "" || a.domain == ""
  }

  function Elements(s: seq<string>): set<string> {
    set x | x in s
  }

  lemma ElementsConcat(a: seq<string>, b: seq<string>)
    ensures Elements(a + b) == Elements(a) + Elements(b)
  {
  }

  predicate NoDuplicates(s: seq<string>) {
    forall i, j | 0 <= i < j < |s| :: s[i] != s[j]
  }

  /** `merged` is `own` completed from `def`; groups are joined only when there are own groups. */
  predicate Merged(own: Settings, def: Settings, merged: Settings) {
    && merged.(groups := []) == def.(groups := [])
    && if own.groups == [] then merged.groups == []
       else NoDuplicates(merged.groups) && Elements(merged.groups) == Elements(own.groups) + Elements(def.groups)
  }

  /** One call of `GetRepoAuth`: the answer, and the stored configuration it leaves behind. */
  ghost predicate Call(c: Stored, repo: string, c': Stored, r: Answer) {
    if repo !in c.entries then r == Panics && c' == c
    else match c.entries[repo]
      case None => c' == c && r == (if c.default.None? then NoAuth else Uses(c.default.value))
      case Some(own) =>
        if !Incomplete(own) then c' == c && r == Uses(own)
        else if c.default.None? then c' == c && r == Panics
        else && r.Uses? && Merged(own, c.default.value, r.settings)
             && c' == c.(entries := c.entries[repo := Some(r.settings)])
  }

  /** An answer up to the order and repetition of its groups. */
  datatype Effect =
    | Crash
    | Unconfigured
    | Effect(baseDN: string, domain: string, server: string, timeout: int, groups: set<string>)

  function EffectOf(r: Answer): Effect {
    match r
    case Panics => Crash
    case NoAuth => Unconfigured
    case Uses(a) => Effect(a.baseDN, a.domain, a.server, a.timeout, Elements(a.groups))
  }

  /**
   * What a repository is authenticated with, as a pure function of a configuration: the default
   * when it has no settings, its own when they are complete, and otherwise the default's server
   * with the union of both group sets, or with no group at all when it lists none.
   */
  function Effective(c: Stored, repo: string): Effect {
    if repo !in c.entries then Crash
    else match (c.entries[repo], c.default)
      case (None, None) => Unconfigured
      case (None, Some(d)) => EffectOf(Uses(d))
      case (Some(own), None) => if Incomplete(own) then Crash else EffectOf(Uses(own))
      case (Some(own), Some(d)) =>
        if !Incomplete(own) then EffectOf(Uses(own))
        else Effect(d.baseDN, d.domain, d.server, d.timeout,
                    if own.groups == [] then {} else Elements(own.groups) + Elements(d.groups))
  }

  /** A call answers the effective settings and changes nobody's, although it rewrites an entry. */
  lemma CallKeepsEffective(c: Stored, repo: string, c': Stored, r: Answer)
    requires Call(c, repo, c', r)
    ensures EffectOf(r) == Effective(c, repo)
    ensures forall q :: Effective(c', q) == Effective(c, q)
    ensures c'.default == c.default && c'.entries.Keys == c.entries.Keys
    ensures forall q | q in c.entries && q != repo :: c'.entries[q] == c.entries[q]
  {
    if repo in c.entries && c.entries[repo].Some? && Incomplete(c.entries[repo].value) && c.default.Some? {
      MergedAgain(c.entries[repo].value, c.default.value, r.settings);
    }
  }

  /** The default's server settings, and the groups of both when there are own groups. */
  predicate CompletedFrom(own: Settings, def: Settings, r: Settings) {
    && r.server == def.server && r.baseDN == def.baseDN && r.domain == def.domain && r.timeout == def.timeout
    && (own.groups == [] ==> r.groups == [])
    && (own.groups != [] ==>
          && (forall g <- r.groups :: g in own.groups || g in def.groups)
          && (forall g <- own.groups :: g in r.groups) && (forall g <- def.groups :: g in r.groups)
          && forall i, j | 0 <= i < j < |r.groups| :: r.groups[i] != r.groups[j])
  }

  lemma MergedFields(own: Settings, def: Settings, merged: Settings)
    ensures Merged(own, def, merged) ==> CompletedFrom(own, def, merged)
  {
    if Merged(own, def, merged) {
      assert merged.(groups := []).server == def.server && merged.(groups := []).timeout == def.timeout;
      assert merged.(groups := []).baseDN == def.baseDN && merged.(groups := []).domain == def.domain;
      if own.groups != [] {
        forall g ensures g in merged.groups <==> g in own.groups || g in def.groups {
          assert g in Elements(merged.groups) <==> g in Elements(own.groups) + Elements(def.groups);
        }
      }
    }
  }

  /**
   * A call field by field: which settings are answered as they are, which are completed and from
   * what, and when there is nothing to answer.
   */
  lemma CallByFields(c: Stored, repo: string, c': Stored, r: Answer)
    requires Call(c, repo, c', r)
    ensures repo !in c.entries ==> r == Panics && c' == c
    ensures repo in c.entries && c.entries[repo].None? ==>
      c' == c && r == (if c.default.None? then NoAuth else Uses(c.default.value))
    ensures repo in c.entries && c.entries[repo].Some? ==>
      var own := c.entries[repo].value;
      if own.server != "" && own.baseDN != "" && own.domain != "" then r == Uses(own) && c' == c
      else if c.default.None? then r == Panics && c' == c
      else r.Uses? && c'.entries[repo] == Some(r.settings) && CompletedFrom(own, c.default.value, r.settings)
  {
    if repo in c.entries && c.entries[repo].Some? && c.default.Some? && c'.entries[repo] == Some(r.settings) {
      MergedFields(c.entries[repo].value, c.default.value, r.settings);
    }
  }

  /** Merging a merged entry once more, as happens while the default is incomplete, adds nothing. */
  lemma MergedAgain(own: Settings, def: Settings, merged: Settings)
    requires Merged(own, def, merged)
    ensures merged.groups == [] <==> own.groups == []
    ensures own.groups != [] ==>
      Elements(merged.groups) + Elements(def.groups) == Elements(own.groups) + Elements(def.groups)
  {
    if own.groups != [] {
      assert own.groups[0] in Elements(merged.groups);
    }
  }

  /** The look-up dereferences nil: an unknown repository, or a gap in its settings and no default. */
  predicate Unanswerable(c: Stored, repo: string) {
    repo in c.entries ==>
      && c.default.None? && c.entries[repo].Some?
      && var own := c.entries[repo].value; own.server == "" || own.baseDN == "" || own.domain == ""
  }

  /** A repository without settings, and no default. */
  predicate NothingStored(c: Stored, repo: string) {
    repo in c.entries && c.entries[repo].None? && c.default.None?
  }

  lemma WhatIsEffective(c: Stored, repo: string)
    ensures Effective(c, repo) == Crash <==> Unanswerable(c, repo)
    ensures Effective(c, repo) == Unconfigured <==> NothingStored(c, repo)
  {
  }

  /** A history of calls: configuration `i` becomes `i + 1` by call `i`. */
  ghost predicate History(cs: seq<Stored>, repos: seq<string>, rs: seq<Answer>) {
    && |cs| == |repos| + 1 && |rs| == |repos|
    && forall i | 0 <= i < |repos| :: Call(cs[i], repos[i], cs[i + 1], rs[i])
  }

  predicate Untouched(c: Stored, c': Stored, repo: string)
    requires repo in c.entries && repo in c'.entries
  {
    c'.entries[repo] == c.entries[repo]
  }

  /** Settings that were incomplete at first have been completed, without duplicate groups. */
  predicate Completed(c: Stored, c': Stored, repo: string)
    requires repo in c'.entries
  {
    LacksSettings(c, repo) && c'.entries[repo].Some? && NoDuplicates(c'.entries[repo].value.groups)
  }

  predicate LacksSettings(c: Stored, repo: string) {
    && repo in c.entries && c.entries[repo].Some?
    && var own := c.entries[repo].value; own.server == "" || own.baseDN == "" || own.domain == ""
  }

  /**
   * In every history, every answer is the effective settings of the initial configuration, entries
   * that nobody asked for stay as they were, and settings that had to be completed are answered
   * without duplicate groups however often they are asked for.
   */
  lemma {:induction false} HistoryIndependent(cs: seq<Stored>, repos: seq<string>, rs: seq<Answer>, n: nat)
    requires History(cs, repos, rs) && n <= |repos|
    ensures cs[n].default == cs[0].default && cs[n].entries.Keys == cs[0].entries.Keys
    ensures forall q :: Effective(cs[n], q) == Effective(cs[0], q)
    ensures forall i | 0 <= i < n :: EffectOf(rs[i]) == Effective(cs[0], repos[i])
    ensures forall q | q in cs[0].entries && q !in repos[..n] :: cs[n].entries[q] == cs[0].entries[q]
    ensures forall q <- cs[0].entries :: Untouched(cs[0], cs[n], q) || Completed(cs[0], cs[n], q)
    ensures forall i | 0 <= i < n && LacksSettings(cs[0], repos[i]) && rs[i].Uses? ::
              NoDuplicates(rs[i].settings.groups)
    decreases n
  {
    hide Effective, EffectOf;
    if n > 0 {
      HistoryIndependent(cs, repos, rs, n - 1);
      CallKeepsEffective(cs[n - 1], repos[n - 1], cs[n], rs[n - 1]);
      assert repos[..n] == repos[..n - 1] + [repos[n - 1]];
    }
  }

  /** With a complete default, no answer of any history leaves server, base or domain empty. */
  lemma AnswersComplete(cs: seq<Stored>, repos: seq<string>, rs: seq<Answer>, i: nat)
    requires History(cs, repos, rs) && i < |repos| && cs[0].default.Some?
    requires var d := cs[0].default.value; d.server != "" && d.baseDN != "" && d.domain != ""
    ensures rs[i].Uses?
      ==> rs[i].settings.server != "" && rs[i].settings.baseDN != "" && rs[i].settings.domain != ""
  {
    HistoryIndependent(cs, repos, rs, |repos|);
  }
}
