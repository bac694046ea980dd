/** The configuration objects, with `GetRepoAuth` rewriting a stored entry in place. */
module Config {
  import opened Wrappers
  import opened AuthSettings

  class Auth {
    var baseDN: string
    var domain: string
    var server: string
    var groups: seq<string>
    var timeout: int

    function Value(): Settings
      reads this
    {
      Settings(baseDN, domain, server, groups, timeout)
    }

    constructor (a: Settings)
      ensures Value() == a
    {
      baseDN, domain, server, groups, timeout := a.baseDN, a.domain, a.server, a.groups, a.timeout;
    }
  }

  class Repo {
    var auth: Auth?
  }

  function ValueOf(a: Auth?): Option<Settings>
    reads a
  {
    if a == null then None else Some(a.Value())
  }

  class Repositories {
    var entries: map<string, Repo>
    var auth: Auth?

    ghost var Repr: set<object>

    /** Decoding a YAML file shares no object between two places. */
    ghost predicate Valid()
      reads this, Repr
    {
      && this in Repr
      && (auth != null ==> auth in Repr)
      && (forall q <- entries :: entries[q] in Repr && (entries[q].auth != null ==> entries[q].auth in Repr))
      && (forall q <- entries :: entries[q].auth != null ==> entries[q].auth != auth)
      && (forall p, q | p in entries && q in entries && p != q && entries[p].auth != null ::
            entries[p].auth != entries[q].auth)
    }

    ghost function View(): Stored
      requires Valid()
      reads this, Repr
    {
      Stored(ValueOf(auth), map q | q in entries :: ValueOf(entries[q].auth))
    }

    /**
     * The settings to authenticate a repository with. `panics` stands for a nil dereference: an
     * unknown repository, or incomplete settings without a default. Only the repository's own
     * entry may change.
     */
    method GetRepoAuth(repoName: string) returns (panics: bool, result: Auth?)
      requires Valid()
      modifies if repoName in entries && entries[repoName].auth != null then {entries[repoName].auth} else {}
      ensures Valid()
      ensures Call(old(View()), repoName, View(),
                   if panics then Panics else if result == null then NoAuth else Uses(result.Value()))
      ensures panics <==>
        || repoName !in entries
        || (auth == null && var own := entries[repoName].auth;
            own != null && old(own.server == "" || own.baseDN == "" || own.domain == ""))
      ensures !panics ==> result == if entries[repoName].auth != null then entries[repoName].auth else auth
      ensures !panics && entries[repoName].auth != null ==>
        var own := entries[repoName].auth;
        if old(own.server != "" && own.baseDN != "" && own.domain != "") then own.Value() == old(own.Value())
        else auth != null && CompletedFrom(old(own.Value()), auth.Value(), own.Value())
    {
      ghost var stored := View();
      if repoName !in entries {
        return true, null;
      }
      var own := entries[repoName].auth;
      var def := auth;
      if own == null && def == null {
        return false, null;
      }
      if own == null {
        own := def;
      } else if own.server == "" || own.baseDN == "" || own.domain == "" {
        if def == null {
          return true, null;
        }
        Complete(own, def);
        assert View().entries == stored.entries[repoName := Some(own.Value())];
        CallByFields(stored, repoName, View(), Uses(own.Value()));
      }
      return false, own;
    }
  }

  /** Completes a repository's settings from the default ones, in place. */
  method Complete(own: Auth, def: Auth)
    requires own != def
    modifies own
    ensures Merged(old(own.Value()), def.Value(), own.Value())
  {
    own.baseDN := def.baseDN;
    own.domain := def.domain;
    own.server := def.server;
    own.timeout := def.timeout;
    if |own.groups| > 0 {
      ElementsConcat(own.groups, def.groups);
      own.groups := Unique(own.groups + def.groups);
    }
  }

  /** The elements of `s` without repetitions; the order is not part of the contract. */
  method Unique(s: seq<string>) returns (r: seq<string>)
    ensures NoDuplicates(r) && Elements(r) == Elements(s)
  {
    r := [];
    for i := 0 to |s|
      invariant NoDuplicates(r) && Elements(r) == Elements(s[..i])
    {
      assert s[..i + 1] == s[..i] + [s[i]];
      ElementsConcat(s[..i], [s[i]]);
      ElementsConcat(r, [s[i]]);
      assert s[i] in r <==> s[i] in Elements(r);
      if s[i] !in r {
        r := r + [s[i]];
      }
    }
    assert s[..|s|] == s;
  }
}
