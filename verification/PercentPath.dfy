/**
 * Stripping `/{repoName}` from a request's path and from its percent-encoded raw path (section 2.1
 * of RFC 3986): when the two stripped paths still denote the same resource.
 */
module PercentPath {
  import opened Wrappers
  import opened Hex
  import opened Template
  import opened StripPrefix

  /** The octet of a triplet `%XY` at the front of `s`. */
  function Triplet(s: string): (r: Option<char>)
    requires s != ""
  {
    if |s| < 3 then None
    else
      var hi :- HexDigit(s[1]);
      var lo :- HexDigit(s[2]);
      Some((16 * hi + lo) as char)
  }

  /** Percent-decoding, one octet per character; None for a malformed triplet. */
  function Decode(s: string): Option<string> {
    if s == "" then Some("")
    else if s[0] == '%' then
      var c :- Triplet(s);
      var rest :- Decode(s[3..]);
      Some([c] + rest)
    else
      var rest :- Decode(s[1..]);
      Some([s[0]] + rest)
  }

  /** Some triplet of `s` is `%2F` or `%2f`. */
  predicate EncodedSlash(s: string) {
    s != "" &&
    if s[0] == '%' then |s| >= 3 && (Triplet(s) == Some('/') || EncodedSlash(s[3..]))
    else EncodedSlash(s[1..])
  }

  lemma DecodeFirst(s: string)
    ensures Decode(s) ==
      if s == "" then Some("")
      else if s[0] != '%' then (match Decode(s[1..]) case None => None case Some(x) => Some([s[0]] + x))
      else match Triplet(s)
        case None => None
        case Some(c) => match Decode(s[3..]) case None => None case Some(x) => Some([c] + x)
  {
  }

  /** What a triplet stands for, in either case of its digits; any other octet stands for itself. */
  lemma DecodeOctet(x: char, y: char, hi: nat, lo: nat, rest: string)
    requires hi < 16 && (x == "0123456789abcdef"[hi] || x == "0123456789ABCDEF"[hi])
    requires lo < 16 && (y == "0123456789abcdef"[lo] || y == "0123456789ABCDEF"[lo])
    ensures Decode(['%', x, y] + rest) ==
      match Decode(rest) case None => None case Some(t) => Some([(16 * hi + lo) as char] + t)
    ensures x != '%' && Decode([x] + rest) == match Decode(rest) case None => None case Some(t) => Some([x] + t)
  {
    hide Decode;
    HexDigits(x, hi);
    HexDigits(y, lo);
    var s, t := ['%', x, y] + rest, [x] + rest;
    DecodeFirst(s);
    DecodeFirst(t);
    assert s[3..] == rest && t[1..] == rest;
  }

  /** A triplet never straddles a slash, so decoding splits there. */
  lemma {:induction false} DecodeSplit(a: string, b: string)
    requires b == "" || b[0] == '/'
    ensures Decode(a + b) == match (Decode(a), Decode(b))
      case (Some(x), Some(y)) => Some(x + y)
      case _ => None
    decreases |a|
  {
    hide Decode;
    DecodeFirst(a);
    DecodeFirst(a + b);
    if a == "" {
      assert a + b == b;
      if Decode(b).Some? {
        assert "" + Decode(b).value == Decode(b).value;
      }
    } else if a[0] == '%' {
      if |a| >= 3 {
        DecodeSplit(a[3..], b);
        assert (a + b)[3..] == a[3..] + b;
        assert Triplet(a + b) == Triplet(a);
        if Triplet(a).Some? && Decode(a[3..]).Some? && Decode(b).Some? {
          var c, x, y := Triplet(a).value, Decode(a[3..]).value, Decode(b).value;
          assert [c] + (x + y) == ([c] + x) + y;
        }
      } else {
        Straddle(a, b);
      }
    } else {
      DecodeSplit(a[1..], b);
      assert (a + b)[1..] == a[1..] + b;
      if Decode(a[1..]).Some? && Decode(b).Some? {
        var x, y := Decode(a[1..]).value, Decode(b).value;
        assert [a[0]] + (x + y) == ([a[0]] + x) + y;
      }
    }
  }

  lemma Straddle(a: string, b: string)
    requires 1 <= |a| < 3 && (b == "" || b[0] == '/')
    ensures Triplet(a + b) == None
  {
    if b != "" {
      assert (a + b)[|a|] == '/';
      assert HexDigit('/') == None;
    }
  }

  lemma {:induction false} DecodedSlash(s: string)
    requires Decode(s).Some? && '/' !in s
    ensures '/' in Decode(s).value <==> EncodedSlash(s)
    ensures Decode(s).value == "" <==> s == ""
    decreases |s|
  {
    if s != "" {
      var k := if s[0] == '%' then 3 else 1;
      assert forall c :: c in s[k..] ==> c in s;
      DecodedSlash(s[k..]);
    }
  }

  /** The pattern that `/{repoName}` compiles to. */
  const REPO_PATTERN: seq<Token> := [Literal("/"), Wildcard, Literal("")]

  /** It matches a slash and the non-empty segment after it. */
  lemma RepoMatch(p: string)
    ensures MatchEnd(REPO_PATTERN, p, 0) ==
      if p != "" && p[0] == '/' && RunEnd(p, 1) > 1 then Some(RunEnd(p, 1)) else None
  {
    assert REPO_PATTERN[1..] == [Wildcard, Literal("")] && [Wildcard, Literal("")][1..] == [Literal("")];
    if p != "" && p[0] == '/' {
      assert p[0..1] == "/";
      var n := RunEnd(p, 1);
      EmptyLiteral(p, n);
    } else if p != "" {
      assert p[0..1][0] == p[0];
    }
  }

  lemma EmptyLiteral(p: string, n: nat)
    requires n <= |p|
    ensures MatchEnd([Literal("")], p, n) == Some(n)
  {
    assert p[n..n] == "" && [Literal("")][1..] == [];
  }

  lemma {:induction false} RunEndAt(p: string, i: nat, n: nat)
    requires i <= n <= |p| && NoSlash(p, i, n) && (n == |p| || p[n] == '/')
    ensures RunEnd(p, i) == n
    decreases n - i
  {
    if i < n {
      RunEndAt(p, i + 1, n);
    }
  }

  /** Where the first slash of `x + y` is, when `y` is empty or begins with one. */
  lemma RunEndOfParts(x: string, y: string)
    requires y == "" || y[0] == '/'
    ensures var p := "/" + x + y;
      && RunEnd(p, 1) <= 1 + |x|
      && (RunEnd(p, 1) == 1 + |x| <==> '/' !in x)
  {
    var p := "/" + x + y;
    assert forall k | 1 <= k < 1 + |x| :: p[k] == x[k - 1];
    if '/' !in x {
      RunEndAt(p, 1, 1 + |x|);
    } else {
      var k :| 0 <= k < |x| && x[k] == '/';
      assert p[k + 1] == '/';
      var n := RunEnd(p, 1);
      assert n <= k + 1;
    }
  }

  /** Both paths fail, or both match and the stripped raw path decodes to the stripped path. */
  predicate Agree(path: string, rawPath: string) {
    var a, b := MatchEnd(REPO_PATTERN, path, 0), MatchEnd(REPO_PATTERN, rawPath, 0);
    || (a.None? && b.None?)
    || (a.Some? && b.Some? && Decode(Replace(REPO_PATTERN, rawPath)) == Some(Replace(REPO_PATTERN, path)))
  }

  /**
   * Stripping commutes with percent-decoding exactly when the first segment of the raw path hides
   * no encoded slash: for every raw path that begins with a slash and decodes.
   */
  lemma StripCommutes(rawPath: string)
    requires rawPath != "" && rawPath[0] == '/' && Decode(rawPath).Some?
    ensures Agree(Decode(rawPath).value, rawPath) <==> !EncodedSlash(rawPath[1..RunEnd(rawPath, 1)])
  {
    hide Decode, MatchEnd, RunEnd, EncodedSlash;
    var n := RunEnd(rawPath, 1);
    var seg, rest := rawPath[1..n], rawPath[n..];
    var path := Decode(rawPath).value;
    RepoMatch(rawPath);
    DecodeParts(rawPath, seg, rest);
    var x, y := Decode(seg).value, Decode(rest).value;
    SegmentPlain(rawPath, n);
    DecodedSlash(seg);
    RepoMatch(path);
    RunEndOfParts(x, y);
    if '/' !in x {
      assert RunEnd(path, 1) == 1 + |x|;
      assert path[1 + |x|..] == y;
    } else {
      LongerRest(path, RunEnd(path, 1), x, y);
    }
  }

  lemma LongerRest(path: string, n: nat, x: string, y: string)
    requires path == "/" + x + y && n <= |x|
    ensures path[n..] != y
  {
    assert |path[n..]| > |y|;
  }

  lemma SegmentPlain(p: string, n: nat)
    requires 1 <= n <= |p| && NoSlash(p, 1, n)
    ensures '/' !in p[1..n]
  {
    assert forall k | 0 <= k < n - 1 :: p[1..n][k] == p[k + 1];
  }

  lemma DecodeParts(rawPath: string, seg: string, rest: string)
    requires rawPath == "/" + seg + rest && (rest == "" || rest[0] == '/') && Decode(rawPath).Some?
    ensures Decode(seg).Some? && Decode(rest).Some?
    ensures var x, y := Decode(seg).value, Decode(rest).value;
      Decode(rawPath).value == "/" + x + y && (y == "" || y[0] == '/')
  {
    hide Decode;
    assert rawPath[0] == '/' && rawPath[1..] == seg + rest;
    DecodeSlash(rawPath);
    DecodeSplit(seg, rest);
    DecodedRest(rest);
    var x, y := Decode(seg).value, Decode(rest).value;
    assert "/" + (x + y) == "/" + x + y;
  }

  lemma DecodedRest(rest: string)
    requires (rest == "" || rest[0] == '/') && Decode(rest).Some?
    ensures Decode(rest).value == "" || Decode(rest).value[0] == '/'
  {
  }

  lemma DecodeSlash(s: string)
    requires s != "" && s[0] == '/'
    ensures Decode(s) == match Decode(s[1..]) case None => None case Some(x) => Some("/" + x)
  {
  }

  /** `/{repoName}` has one group, and compiles to `REPO_PATTERN`. */
  lemma RepoTemplate(gs: seq<Braces.Span>)
    requires TemplateGroups("/{repoName}", gs) && InOrder("/{repoName}", gs)
    ensures Pattern("/{repoName}", gs) == REPO_PATTERN
  {
    hide Braces.Groups, Braces.Balanced, Pattern;
    RepoGroups();
    Braces.GroupsUnique("/{repoName}", gs, [Braces.Span(1, 11)]);
    RepoPattern();
  }

  lemma RepoGroups()
    ensures Braces.Groups("/{repoName}", [Braces.Span(1, 11)]) && Braces.Balanced("/{repoName}")
  {
    RepoLevels();
    var s, g := "/{repoName}", Braces.Span(1, 11);
    assert s[1] == '{' && s[10] == '}';
    hide Braces.Level, Braces.Brace;
    assert Braces.Group(s, g);
    assert g in [g];
    forall p | 0 <= p < 11 && Braces.Brace(s[p]) ensures Braces.Within(g, p) {
    }
  }

  lemma RepoPattern()
    requires InOrder("/{repoName}", [Braces.Span(1, 11)])
    ensures Pattern("/{repoName}", [Braces.Span(1, 11)]) == REPO_PATTERN
  {
    var s, gs := "/{repoName}", [Braces.Span(1, 11)];
    LastEnd(s, gs);
    assert s[0..1] == "/" && s[11..] == "";
    assert PatternTo(s, gs, 0) == [];
    assert PatternTo(s, gs, 1) == [Literal("/"), Wildcard];
  }

  lemma RepoLevels()
    ensures var s := "/{repoName}";
      && |s| == 11
      && (forall i: nat | i <= 11 :: Braces.Level(s, i) == if 2 <= i <= 10 then 1 else 0)
      && forall i | 0 <= i < 11 :: Braces.Brace(s[i]) <==> i == 1 || i == 10
  {
    var s := "/{repoName}";
    assert Braces.Level(s, 1) == 0;
    assert Braces.Level(s, 2) == 1;
    forall i: nat | 2 <= i <= 10 ensures Braces.Level(s, i) == 1 {
      LevelFlat(s, 2, i);
    }
    assert Braces.Level(s, 11) == 0;
  }

  lemma {:induction false} LevelFlat(s: string, a: nat, b: nat)
    requires a <= b <= |s| && forall k | a <= k < b :: !Braces.Brace(s[k])
    ensures Braces.Level(s, b) == Braces.Level(s, a)
    decreases b
  {
    if a < b {
      LevelFlat(s, a, b - 1);
    }
  }

  /**
   * The route of the file server, end to end: a request whose raw path hides no encoded slash in
   * its first segment is answered by what both stripped paths denote, or not found.
   */
  lemma RepoServed(gs: seq<Braces.Span>, rawPath: string)
    requires TemplateGroups("/{repoName}", gs) && InOrder("/{repoName}", gs)
    requires rawPath != "" && rawPath[0] == '/' && Decode(rawPath).Some?
    requires !EncodedSlash(rawPath[1..RunEnd(rawPath, 1)])
    ensures match Serve(Strip(Pattern("/{repoName}", gs)), Decode(rawPath).value, rawPath)
      case Served(p, rp) => Decode(rp) == Some(p)
      case NotFound => RunEnd(rawPath, 1) == 1
  {
    hide Decode, MatchEnd, RunEnd, EncodedSlash, Pattern;
    RepoTemplate(gs);
    StripCommutes(rawPath);
    RepoMatch(rawPath);
    RepoMatch(Decode(rawPath).value);
  }
}
