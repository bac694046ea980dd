/**
 * `StripPrefix`: a route template compiled to an anchored pattern of literals and greedy
 * slash-free wildcards, and the matcher that removes what the pattern matches from a path.
 */
module Template {
  import opened Wrappers

  /** A piece of the compiled pattern: quoted text, or `[^/]+`. */
  datatype Token = Literal(text: string) | Wildcard

  // ----- What a pattern matches, and what the regular-expression engine picks -----

  ghost predicate NoSlash(p: string, i: nat, e: nat)
    requires i <= e <= |p|
  {
    forall k | i <= k < e :: p[k] != '/'
  }

  /** The pattern matches `p[i..e]`, in any way. */
  ghost predicate Matches(toks: seq<Token>, p: string, i: nat, e: nat)
    requires i <= e <= |p|
    decreases |toks|, 0
  {
    if toks == [] then i == e
    else match toks[0]
      case Literal(t) => i + |t| <= e && p[i..i + |t|] == t && Matches(toks[1..], p, i + |t|, e)
      case Wildcard => exists n :: Splits(toks[1..], p, i, n, e)
  }

  /** A wildcard takes `p[i..n]`, the rest of the pattern `p[n..e]`. */
  ghost predicate Splits(rest: seq<Token>, p: string, i: nat, n: nat, e: nat)
    requires i <= e <= |p|
    decreases |rest|, 1
  {
    i < n <= e && NoSlash(p, i, n) && Matches(rest, p, n, e)
  }

  /** The end of the run of non-slash characters at `i`. */
  function RunEnd(p: string, i: nat): (n: nat)
    requires i <= |p|
    ensures i <= n <= |p| && NoSlash(p, i, n) && (n == |p| || p[n] == '/')
    decreases |p| - i
  {
    if i == |p| || p[i] == '/' then i else RunEnd(p, i + 1)
  }

  /** Where the engine's match that begins at `i` ends: wildcards take as much as they can. */
  function MatchEnd(toks: seq<Token>, p: string, i: nat): (r: Option<nat>)
    requires i <= |p|
    ensures r.Some? ==> i <= r.value <= |p|
    decreases |toks|, 0
  {
    if toks == [] then Some(i)
    else match toks[0]
      case Literal(t) => if i + |t| <= |p| && p[i..i + |t|] == t then MatchEnd(toks[1..], p, i + |t|) else None
      case Wildcard => TryWildcard(toks[1..], p, i, RunEnd(p, i))
  }

  /** The wildcard's choices from `p[i..n]` down to one character. */
  function TryWildcard(rest: seq<Token>, p: string, i: nat, n: nat): (r: Option<nat>)
    requires i <= n <= |p|
    ensures r.Some? ==> i <= r.value <= |p|
    decreases |rest|, 1, n
  {
    if n == i then None
    else match MatchEnd(rest, p, n)
      case Some(e) => Some(e)
      case None => TryWildcard(rest, p, i, n - 1)
  }

  /** The engine's match is a match. */
  lemma {:induction false} MatchSound(toks: seq<Token>, p: string, i: nat)
    requires i <= |p| && MatchEnd(toks, p, i).Some?
    ensures Matches(toks, p, i, MatchEnd(toks, p, i).value)
    decreases |toks|, 0
  {
    if toks != [] {
      match toks[0]
      case Literal(t) => MatchSound(toks[1..], p, i + |t|);
      case Wildcard => TrySound(toks[1..], p, i, RunEnd(p, i));
    }
  }

  lemma {:induction false} TrySound(rest: seq<Token>, p: string, i: nat, n: nat)
    requires i <= n <= |p| && NoSlash(p, i, n) && TryWildcard(rest, p, i, n).Some?
    ensures exists m :: Splits(rest, p, i, m, TryWildcard(rest, p, i, n).value)
    decreases |rest|, 1, n
  {
    if MatchEnd(rest, p, n).Some? {
      MatchSound(rest, p, n);
      assert Splits(rest, p, i, n, MatchEnd(rest, p, n).value);
    } else {
      TrySound(rest, p, i, n - 1);
    }
  }

  /** If the pattern matches anything from `i`, the engine finds a match. */
  lemma {:induction false} MatchComplete(toks: seq<Token>, p: string, i: nat, e: nat)
    requires i <= e <= |p| && Matches(toks, p, i, e)
    ensures MatchEnd(toks, p, i).Some?
    decreases |toks|, 0
  {
    if toks != [] {
      match toks[0]
      case Literal(t) => MatchComplete(toks[1..], p, i + |t|, e);
      case Wildcard =>
        var n :| Splits(toks[1..], p, i, n, e);
        TryComplete(toks[1..], p, i, n, e, RunEnd(p, i));
    }
  }

  lemma {:induction false} TryComplete(rest: seq<Token>, p: string, i: nat, n: nat, e: nat, m: nat)
    requires i <= e <= |p| && Splits(rest, p, i, n, e) && n <= m <= |p|
    ensures TryWildcard(rest, p, i, m).Some?
    decreases |rest|, 1, m
  {
    if m == n {
      MatchComplete(rest, p, n, e);
    } else if MatchEnd(rest, p, m).None? {
      TryComplete(rest, p, i, n, e, m - 1);
    }
  }

  // ----- A match that ends where a path segment ends is the one the engine picks -----

  function Slashes(p: string, i: nat, e: nat): nat
    requires i <= e <= |p|
    decreases e - i
  {
    if i == e then 0 else (if p[i] == '/' then 1 else 0) + Slashes(p, i + 1, e)
  }

  function LiteralSlashes(toks: seq<Token>): nat {
    if toks == [] then 0
    else (match toks[0] case Literal(t) => Slashes(t, 0, |t|) case Wildcard => 0) + LiteralSlashes(toks[1..])
  }

  lemma {:induction false} SlashesSplit(p: string, i: nat, n: nat, e: nat)
    requires i <= n <= e <= |p|
    ensures Slashes(p, i, e) == Slashes(p, i, n) + Slashes(p, n, e)
    ensures NoSlash(p, i, n) ==> Slashes(p, i, n) == 0
    decreases n - i
  {
    if i < n {
      SlashesSplit(p, i + 1, n, e);
    }
  }

  lemma {:induction false} SlashesShift(p: string, i: nat, t: string, k: nat)
    requires i + |t| <= |p| && p[i..i + |t|] == t && k <= |t|
    ensures Slashes(p, i + k, i + |t|) == Slashes(t, k, |t|)
    decreases |t| - k
  {
    if k < |t| {
      assert p[i + k] == p[i..i + |t|][k];
      SlashesShift(p, i, t, k + 1);
    }
  }

  /** Wildcards cross no slash, so every match has exactly the slashes of the literals. */
  lemma {:induction false} MatchSlashes(toks: seq<Token>, p: string, i: nat, e: nat)
    requires i <= e <= |p| && Matches(toks, p, i, e)
    ensures Slashes(p, i, e) == LiteralSlashes(toks)
    decreases |toks|
  {
    if toks != [] {
      match toks[0]
      case Literal(t) =>
        SlashesShift(p, i, t, 0);
        SlashesSplit(p, i, i + |t|, e);
        MatchSlashes(toks[1..], p, i + |t|, e);
      case Wildcard =>
        var n :| Splits(toks[1..], p, i, n, e);
        SlashesSplit(p, i, n, e);
        MatchSlashes(toks[1..], p, n, e);
    }
  }

  /** Two copies of a literal that start in the same segment: both slash-free, or the same copy. */
  lemma LiteralShift(p: string, i: nat, j: nat, t: string)
    requires i <= j && j + |t| <= |p| && p[i..i + |t|] == t && p[j..j + |t|] == t && NoSlash(p, i, j)
    ensures i == j || NoSlash(p, i + |t|, j + |t|)
  {
    if i < j {
      forall k | 0 <= k < |t| ensures p[i + k] == t[k] && p[j + k] == t[k] {
        assert p[i..i + |t|][k] == t[k] && p[j..j + |t|][k] == t[k];
      }
      NoSlashInLiteral(p, i, j, t, |t|);
    }
  }

  lemma {:induction false} NoSlashInLiteral(p: string, i: nat, j: nat, t: string, n: nat)
    requires i < j && j + |t| <= |p| && NoSlash(p, i, j) && n <= |t|
    requires forall k | 0 <= k < |t| :: p[i + k] == t[k] && p[j + k] == t[k]
    ensures NoSlash(p, i, j + n)
  {
    if n > 0 {
      NoSlashInLiteral(p, i, j, t, n - 1);
      assert p[j + (n - 1)] == t[n - 1] == p[i + (n - 1)];
    }
  }

  /**
   * Exchange: from two matches that start in the same segment, the earlier one ending no earlier,
   * the later start can also reach the later end.
   */
  lemma {:induction false} Exchange(toks: seq<Token>, p: string, i: nat, j: nat, e: nat, e1: nat)
    requires i <= j <= e1 <= e <= |p| && NoSlash(p, i, j)
    requires Matches(toks, p, i, e) && Matches(toks, p, j, e1)
    ensures Matches(toks, p, j, e)
    decreases |toks|
  {
    if toks != [] {
      var rest := toks[1..];
      match toks[0] {
        case Literal(t) =>
          LiteralShift(p, i, j, t);
          if i < j {
            Exchange(rest, p, i + |t|, j + |t|, e, e1);
          }
        case Wildcard =>
          var a :| Splits(rest, p, i, a, e);
          var b :| Splits(rest, p, j, b, e1);
          if j < a {
            assert Splits(rest, p, j, a, e);
          } else {
            Exchange(rest, p, a, b, e, e1);
            assert Splits(rest, p, j, b, e);
          }
      }
    }
  }

  /** If the pattern can match up to the end of a path segment, that is where the engine stops. */
  lemma {:induction false} MatchAtSegmentEnd(toks: seq<Token>, p: string, i: nat, e: nat)
    requires i <= e <= |p| && Matches(toks, p, i, e) && (e == |p| || p[e] == '/')
    ensures MatchEnd(toks, p, i) == Some(e)
    decreases |toks|, 0
  {
    if toks != [] {
      match toks[0]
      case Literal(t) => MatchAtSegmentEnd(toks[1..], p, i + |t|, e);
      case Wildcard =>
        var n :| Splits(toks[1..], p, i, n, e);
        TryAtSegmentEnd(toks[1..], p, i, n, e, RunEnd(p, i));
    }
  }

  lemma {:induction false} TryAtSegmentEnd(rest: seq<Token>, p: string, i: nat, n: nat, e: nat, m: nat)
    requires i <= e <= |p| && Splits(rest, p, i, n, e) && (e == |p| || p[e] == '/')
    requires n <= m <= |p| && NoSlash(p, i, m)
    ensures TryWildcard(rest, p, i, m) == Some(e)
    decreases |rest|, 1, m
  {
    if MatchEnd(rest, p, m).Some? {
      var e1 := MatchEnd(rest, p, m).value;
      MatchSound(rest, p, m);
      NotBeyond(rest, p, n, m, e, e1);
      Exchange(rest, p, n, m, e, e1);
      MatchAtSegmentEnd(rest, p, m, e);
    } else if m == n {
      MatchAtSegmentEnd(rest, p, n, e);
    } else {
      TryAtSegmentEnd(rest, p, i, n, e, m - 1);
    }
  }

  /** A match from the same segment cannot run past a slash at which another ends. */
  lemma NotBeyond(toks: seq<Token>, p: string, n: nat, m: nat, e: nat, e1: nat)
    requires n <= m <= e1 <= |p| && n <= e <= |p| && NoSlash(p, n, m) && (e == |p| || p[e] == '/')
    requires Matches(toks, p, n, e) && Matches(toks, p, m, e1)
    ensures e1 <= e
  {
    MatchSlashes(toks, p, n, e);
    MatchSlashes(toks, p, m, e1);
    SlashesSplit(p, n, m, e1);
    if e < e1 {
      SlashesSplit(p, n, e, e1);
    }
  }
}
