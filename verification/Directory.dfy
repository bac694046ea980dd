/** Who the directory lets in: the search that a sign-in performs, as a condition on entries. */
module Directory {
  import opened LdapFilter
  import opened AuthSettings

  /** The entries below the search base; `other` answers for items whose matching rules are not modelled. */
  datatype Server = Server(entries: seq<Entry>, other: Filter -> bool)

  function Selected(f: Filter, es: seq<Entry>, other: Filter -> bool): seq<Entry> {
    if es == [] then []
    else (if Holds(f, es[0], other) then [es[0]] else []) + Selected(f, es[1..], other)
  }

  /** The search with size limit 1 succeeds when it returns one entry, and no more match. */
  predicate SearchSucceeds(server: Server, username: string, conf: Settings) {
    match Parse(Text(username, conf.groups))
    case None => false
    case Some(f) => |Selected(f, server.entries, server.other)| == 1
  }

  predicate Admits(e: Entry, username: string, groups: set<string>) {
    Has(e, "sAMAccountName", username) && exists g <- groups :: Has(e, "memberOf", g)
  }

  function Admitted(es: seq<Entry>, username: string, groups: set<string>): seq<Entry> {
    if es == [] then []
    else (if Admits(es[0], username, groups) then [es[0]] else []) + Admitted(es[1..], username, groups)
  }

  lemma {:induction false} SelectedAdmitted(username: string, groups: seq<string>, es: seq<Entry>,
                                            other: Filter -> bool)
    ensures Parse(Text(username, groups)).Some?
    ensures Selected(Parse(Text(username, groups)).value, es, other) == Admitted(es, username, Elements(groups))
    decreases |es|
  {
    hide Parse, Text, Holds, Has;
    FilterParsed(username, groups);
    if es != [] {
      SelectedAdmitted(username, groups, es[1..], other);
      FilterMeaning(username, groups, es[0], other);
      assert (exists g <- groups :: Has(es[0], "memberOf", g)) <==>
             (exists g <- Elements(groups) :: Has(es[0], "memberOf", g));
    }
  }

  /**
   * A repository lets a user in when exactly one entry of the directory has that account name and
   * one of the groups that are in effect for the repository.
   */
  predicate Welcomes(server: Server, username: string, effect: Effect) {
    effect.Effect? && |Admitted(server.entries, username, effect.groups)| == 1
  }

  /** Entry `i` has the account and one of the groups, and no other entry does. */
  predicate OnlyAdmitted(es: seq<Entry>, i: nat, username: string, groups: set<string>)
    requires i < |es|
  {
    forall j | 0 <= j < |es| ::
      Has(es[j], "sAMAccountName", username) && (exists g <- groups :: Has(es[j], "memberOf", g)) <==> j == i
  }

  lemma {:induction false} AdmittedCount(es: seq<Entry>, username: string, groups: set<string>)
    ensures |Admitted(es, username, groups)| == 0 <==> forall i | 0 <= i < |es| :: !Admits(es[i], username, groups)
    ensures |Admitted(es, username, groups)| == 1 <==>
      exists i :: 0 <= i < |es| && OnlyAdmitted(es, i, username, groups)
    decreases |es|
  {
    hide Has;
    if es != [] {
      var rest := es[1..];
      AdmittedCount(rest, username, groups);
      if Admits(es[0], username, groups) {
        if forall i | 0 <= i < |rest| :: !Admits(rest[i], username, groups) {
          assert OnlyAdmitted(es, 0, username, groups);
        }
      } else {
        if exists i :: 0 <= i < |rest| && OnlyAdmitted(rest, i, username, groups) {
          var i :| 0 <= i < |rest| && OnlyAdmitted(rest, i, username, groups);
          assert OnlyAdmitted(es, i + 1, username, groups);
        }
        if exists i :: 0 <= i < |es| && OnlyAdmitted(es, i, username, groups) {
          var i :| 0 <= i < |es| && OnlyAdmitted(es, i, username, groups);
          assert OnlyAdmitted(rest, i - 1, username, groups);
        }
      }
    }
  }

  /** Who is welcome: one entry of the directory stands for the account in a group in effect. */
  lemma WelcomedIff(server: Server, username: string, effect: Effect)
    ensures Welcomes(server, username, effect) <==>
      && effect.Effect?
      && exists i :: 0 <= i < |server.entries| && OnlyAdmitted(server.entries, i, username, effect.groups)
  {
    hide Admitted, OnlyAdmitted;
    if effect.Effect? {
      AdmittedCount(server.entries, username, effect.groups);
    }
  }

  /**
   * The settings a call answers, fed to the filter, let in exactly whom the initial configuration
   * says: duplicates, order and earlier calls are irrelevant.
   */
  lemma ConfigAndFilter(c: Stored, repo: string, c': Stored, r: Answer, server: Server, username: string)
    requires Call(c, repo, c', r) && r.Uses?
    ensures SearchSucceeds(server, username, r.settings) <==> Welcomes(server, username, Effective(c, repo))
  {
    hide Selected, Admitted, Parse, Text, Call, Effective;
    CallKeepsEffective(c, repo, c', r);
    SelectedAdmitted(username, r.settings.groups, server.entries, server.other);
  }

  lemma {:induction false} NobodyWithoutGroups(es: seq<Entry>, username: string)
    ensures Admitted(es, username, {}) == []
  {
    if es != [] {
      NobodyWithoutGroups(es[1..], username);
    }
  }

  /** Incomplete settings that list no group let nobody in, whatever the default groups are. */
  lemma IncompleteWithoutGroups(c: Stored, repo: string, server: Server, username: string)
    requires repo in c.entries && c.entries[repo].Some?
    requires var own := c.entries[repo].value;
      (own.server == "" || own.baseDN == "" || own.domain == "") && own.groups == []
    ensures !Welcomes(server, username, Effective(c, repo))
  {
    NobodyWithoutGroups(server.entries, username);
  }
}
