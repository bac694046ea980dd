/** `StripPrefix`: compiling a route template, and the handler that strips it from requests. */
module StripPrefix {
  import opened Wrappers
  import opened Braces
  import opened Template

  // ----- Patterns and the texts they stand for -----

  function Wildcards(toks: seq<Token>): nat {
    if toks == [] then 0 else (if toks[0].Wildcard? then 1 else 0) + Wildcards(toks[1..])
  }

  /** The pattern with a value for each wildcard. */
  function Expand(toks: seq<Token>, values: seq<string>): string
    requires |values| == Wildcards(toks)
    decreases toks
  {
    if toks == [] then ""
    else match toks[0]
      case Literal(t) => t + Expand(toks[1..], values)
      case Wildcard => values[0] + Expand(toks[1..], values[1..])
  }

  /** A value that can stand for a path segment. */
  predicate Segment(v: string) {
    v != "" && '/' !in v
  }

  /** A pattern matches exactly the texts it expands to. */
  lemma {:induction false} ExpandMatches(toks: seq<Token>, values: seq<string>, p: string, i: nat)
    requires |values| == Wildcards(toks) && forall v <- values :: Segment(v)
    requires i + |Expand(toks, values)| <= |p| && p[i..i + |Expand(toks, values)|] == Expand(toks, values)
    ensures Matches(toks, p, i, i + |Expand(toks, values)|)
    decreases |toks|
  {
    if toks != [] {
      var text := Expand(toks, values);
      match toks[0]
      case Literal(t) =>
        PieceOfSlice(p, i, text, |t|);
        ExpandMatches(toks[1..], values, p, i + |t|);
      case Wildcard =>
        var v := values[0];
        assert v in values;
        PieceOfSlice(p, i, text, |v|);
        assert forall k | i <= k < i + |v| :: p[k] == p[i..i + |v|][k - i];
        ExpandMatches(toks[1..], values[1..], p, i + |v|);
        assert Splits(toks[1..], p, i, i + |v|, i + |text|);
    }
  }

  lemma PieceOfSlice(p: string, i: nat, text: string, n: nat)
    requires i + |text| <= |p| && p[i..i + |text|] == text && n <= |text|
    ensures p[i..i + n] == text[..n] && p[i + n..i + |text|] == text[n..]
  {
    assert p[i..i + n] == p[i..i + |text|][..n];
    assert p[i + n..i + |text|] == p[i..i + |text|][n..];
  }

  lemma {:induction false} MatchesExpand(toks: seq<Token>, p: string, i: nat, e: nat) returns (values: seq<string>)
    requires i <= e <= |p| && Matches(toks, p, i, e)
    ensures |values| == Wildcards(toks) && (forall v <- values :: Segment(v)) && p[i..e] == Expand(toks, values)
    decreases |toks|
  {
    values := [];
    if toks != [] {
      match toks[0]
      case Literal(t) =>
        values := MatchesExpand(toks[1..], p, i + |t|, e);
        assert p[i..e] == p[i..i + |t|] + p[i + |t|..e];
      case Wildcard =>
        var n: nat :| Splits(toks[1..], p, i, n, e);
        var rest := MatchesExpand(toks[1..], p, n, e);
        assert Segment(p[i..n]) by {
          assert forall k | 0 <= k < n - i :: p[i..n][k] == p[i + k];
        }
        values := [p[i..n]] + rest;
        assert values[1..] == rest;
        assert p[i..e] == p[i..n] + p[n..e];
    }
  }

  /** Every wildcard is followed by a literal that begins with a slash, or ends the pattern. */
  predicate Separated(toks: seq<Token>)
    decreases |toks|
  {
    toks == [] ||
    (Separated(toks[1..]) &&
     (toks[0].Wildcard? ==>
        || toks[1..] == []
        || toks[1..] == [Literal("")]
        || (toks[1].Literal? && toks[1].text != "" && toks[1].text[0] == '/')))
  }

  predicate AtSegmentEnd(rest: string) {
    rest == "" || rest[0] == '/'
  }

  lemma FirstSlash(v: string, x: string, w: string, y: string)
    requires '/' !in v && '/' !in w && AtSegmentEnd(x) && AtSegmentEnd(y) && v + x == w + y
    ensures v == w && x == y
  {
    var s := v + x;
    assert forall k | 0 <= k < |v| :: s[k] == v[k];
    assert forall k | 0 <= k < |w| :: s[k] == (w + y)[k] == w[k];
    assert x != "" ==> s[|v|] == x[0];
    assert y != "" ==> s[|w|] == (w + y)[|w|] == y[0];
    assert |v| == |w|;
    assert v == s[..|v|] && w == (w + y)[..|w|];
    assert x == s[|v|..] && y == (w + y)[|w|..];
  }

  lemma {:induction false} ExpandEnds(toks: seq<Token>, values: seq<string>, rest: string)
    requires toks == [] || toks == [Literal("")] || (toks[0].Literal? && toks[0].text != "" && toks[0].text[0] == '/')
    requires |values| == Wildcards(toks) && AtSegmentEnd(rest)
    ensures AtSegmentEnd(Expand(toks, values) + rest)
  {
    if toks == [] || toks == [Literal("")] {
      Nothing();
      assert [Literal("")][1..] == [];
      assert Expand(toks, values) == "";
      assert "" + rest == rest;
    }
  }

  /**
   * In a separated pattern nothing is ambiguous: the text determines the value of every wildcard
   * and the rest.
   */
  lemma {:induction false} ExpandUnique(toks: seq<Token>, v: seq<string>, rest: string, w: seq<string>, last: string)
    requires Separated(toks) && |v| == |w| == Wildcards(toks)
    requires (forall x <- v :: Segment(x)) && (forall x <- w :: Segment(x)) && AtSegmentEnd(rest) && AtSegmentEnd(last)
    requires Expand(toks, v) + rest == Expand(toks, w) + last
    ensures v == w && rest == last
    decreases |toks|
  {
    if toks == [] {
      assert "" + rest == rest && "" + last == last;
    } else if toks[0].Literal? {
      LiteralUnique(toks, v, rest, w, last);
      ExpandUnique(toks[1..], v, rest, w, last);
    } else {
      WildcardUnique(toks, v, rest, w, last);
      ExpandUnique(toks[1..], v[1..], rest, w[1..], last);
      assert v == [v[0]] + v[1..] && w == [w[0]] + w[1..];
    }
  }

  lemma CancelPrefix(t: string, a: string, rest: string, b: string, last: string)
    requires (t + a) + rest == (t + b) + last
    ensures a + rest == b + last
  {
    assert (t + a) + rest == t + (a + rest) && (t + b) + last == t + (b + last);
    assert a + rest == (t + (a + rest))[|t|..] && b + last == (t + (b + last))[|t|..];
  }

  lemma LiteralUnique(toks: seq<Token>, v: seq<string>, rest: string, w: seq<string>, last: string)
    requires toks != [] && toks[0].Literal? && |v| == |w| == Wildcards(toks)
    requires Expand(toks, v) + rest == Expand(toks, w) + last
    ensures |v| == |w| == Wildcards(toks[1..])
    ensures Expand(toks[1..], v) + rest == Expand(toks[1..], w) + last
  {
    CancelPrefix(toks[0].text, Expand(toks[1..], v), rest, Expand(toks[1..], w), last);
  }

  lemma WildcardUnique(toks: seq<Token>, v: seq<string>, rest: string, w: seq<string>, last: string)
    requires toks != [] && toks[0].Wildcard? && Separated(toks) && |v| == |w| == Wildcards(toks)
    requires Segment(v[0]) && Segment(w[0]) && AtSegmentEnd(rest) && AtSegmentEnd(last)
    requires Expand(toks, v) + rest == Expand(toks, w) + last
    ensures |v[1..]| == |w[1..]| == Wildcards(toks[1..])
    ensures v[0] == w[0] && Expand(toks[1..], v[1..]) + rest == Expand(toks[1..], w[1..]) + last
  {
    var a, b := Expand(toks[1..], v[1..]), Expand(toks[1..], w[1..]);
    ExpandEnds(toks[1..], v[1..], rest);
    ExpandEnds(toks[1..], w[1..], last);
    CancelSegment(v[0], a, rest, w[0], b, last);
  }

  lemma CancelSegment(v: string, a: string, rest: string, w: string, b: string, last: string)
    requires '/' !in v && '/' !in w && AtSegmentEnd(a + rest) && AtSegmentEnd(b + last)
    requires (v + a) + rest == (w + b) + last
    ensures v == w && a + rest == b + last
  {
    assert (v + a) + rest == v + (a + rest) && (w + b) + last == w + (b + last);
    FirstSlash(v, a + rest, w, b + last);
  }

  // ----- Templates -----

  function EndOf(gs: seq<Span>, k: nat): nat
    requires k <= |gs|
  {
    if k == 0 then 0 else gs[k - 1].end
  }

  ghost predicate InOrder(s: string, gs: seq<Span>) {
    && (forall k | 0 <= k < |gs| :: gs[k].start < gs[k].end <= |s|)
    && (forall i, j | 0 <= i < j < |gs| :: gs[i].end <= gs[j].start)
  }

  /** The template up to its `k`-th group, with a value in place of each group. */
  function FillTo(s: string, gs: seq<Span>, values: seq<string>, k: nat): string
    requires InOrder(s, gs) && k <= |gs| == |values|
  {
    if k == 0 then "" else FillTo(s, gs, values, k - 1) + s[EndOf(gs, k - 1)..gs[k - 1].start] + values[k - 1]
  }

  function Fill(s: string, gs: seq<Span>, values: seq<string>): string
    requires InOrder(s, gs) && |gs| == |values|
  {
    LastEnd(s, gs);
    FillTo(s, gs, values, |gs|) + s[EndOf(gs, |gs|)..]
  }

  function PatternTo(s: string, gs: seq<Span>, k: nat): seq<Token>
    requires InOrder(s, gs) && k <= |gs|
  {
    if k == 0 then [] else PatternTo(s, gs, k - 1) + [Literal(s[EndOf(gs, k - 1)..gs[k - 1].start]), Wildcard]
  }

  /** The compiled pattern: what stands in the braces is dropped, the rest is quoted. */
  function Pattern(s: string, gs: seq<Span>): seq<Token>
    requires InOrder(s, gs)
  {
    LastEnd(s, gs);
    PatternTo(s, gs, |gs|) + [Literal(s[EndOf(gs, |gs|)..])]
  }

  lemma LastEnd(s: string, gs: seq<Span>)
    requires InOrder(s, gs)
    ensures EndOf(gs, |gs|) <= |s|
  {
  }

  /** The spans that `BraceIndices` finds. */
  ghost predicate TemplateGroups(s: string, gs: seq<Span>) {
    && (Balanced(s) ==> Groups(s, gs))
    && (!Balanced(s) ==> gs == [])
  }

  lemma GroupsInOrder(s: string, gs: seq<Span>)
    requires TemplateGroups(s, gs)
    ensures InOrder(s, gs)
  {
    hide Level;
    forall k | 0 <= k < |gs| ensures gs[k].start < gs[k].end <= |s| {
      assert gs[k] in gs && Group(s, gs[k]);
    }
  }

  /** A template whose groups are filled with their own text is the template. */
  lemma FillSelf(s: string, gs: seq<Span>, values: seq<string>)
    requires InOrder(s, gs) && |gs| == |values|
    requires forall j | 0 <= j < |gs| :: values[j] == s[gs[j].start..gs[j].end]
    ensures Fill(s, gs, values) == s
  {
    LastEnd(s, gs);
    FillSelfTo(s, gs, values, |gs|);
    assert s == s[..EndOf(gs, |gs|)] + s[EndOf(gs, |gs|)..];
  }

  lemma {:induction false} FillSelfTo(s: string, gs: seq<Span>, values: seq<string>, k: nat)
    requires InOrder(s, gs) && k <= |gs| == |values|
    requires forall j | 0 <= j < |gs| :: values[j] == s[gs[j].start..gs[j].end]
    ensures EndOf(gs, k) <= |s| && FillTo(s, gs, values, k) == s[..EndOf(gs, k)]
    decreases k
  {
    if k > 0 {
      var g := gs[k - 1];
      FillSelfTo(s, gs, values, k - 1);
      assert s[..g.end] == s[..EndOf(gs, k - 1)] + s[EndOf(gs, k - 1)..g.start] + s[g.start..g.end];
    }
  }

  lemma {:induction false} ExpandConcat(a: seq<Token>, b: seq<Token>, x: seq<string>, y: seq<string>)
    requires |x| == Wildcards(a) && |y| == Wildcards(b)
    ensures Wildcards(a + b) == |x| + |y|
    ensures Expand(a + b, x + y) == Expand(a, x) + Expand(b, y)
    decreases |a|
  {
    if a == [] {
      assert a + b == b && x + y == y;
    } else {
      assert (a + b)[1..] == a[1..] + b;
      match a[0]
      case Literal(t) => ExpandConcat(a[1..], b, x, y);
      case Wildcard =>
        ExpandConcat(a[1..], b, x[1..], y);
        assert (x + y)[1..] == x[1..] + y;
    }
  }

  lemma ExpandPair(t: string, v: string)
    ensures Wildcards([Literal(t), Wildcard]) == 1 && Wildcards([Literal(t)]) == 0
    ensures Expand([Literal(t), Wildcard], [v]) == t + v && Expand([Literal(t)], []) == t
  {
    assert [Literal(t), Wildcard][1..] == [Wildcard] && [Wildcard][1..] == [] && [Literal(t)][1..] == [];
    assert Wildcards([Wildcard]) == 1;
    assert Expand([Wildcard], [v]) == v + Expand([], []);
  }

  lemma {:induction false} ExpandPatternTo(s: string, gs: seq<Span>, values: seq<string>, k: nat)
    requires InOrder(s, gs) && k <= |gs| == |values|
    ensures Wildcards(PatternTo(s, gs, k)) == k
    ensures Expand(PatternTo(s, gs, k), values[..k]) == FillTo(s, gs, values, k)
    decreases k
  {
    hide Expand, Wildcards;
    if k > 0 {
      var t := s[EndOf(gs, k - 1)..gs[k - 1].start];
      ExpandPatternTo(s, gs, values, k - 1);
      ExpandPair(t, values[k - 1]);
      ExpandConcat(PatternTo(s, gs, k - 1), [Literal(t), Wildcard], values[..k - 1], [values[k - 1]]);
      assert values[..k] == values[..k - 1] + [values[k - 1]];
    } else {
      Nothing();
    }
  }

  lemma Nothing()
    ensures Wildcards([]) == 0 && Expand([], []) == ""
  {
  }

  /** Compiling is faithful: the pattern's expansions are the fillings of the template. */
  lemma ExpandPattern(s: string, gs: seq<Span>, values: seq<string>)
    requires InOrder(s, gs) && |gs| == |values|
    ensures Wildcards(Pattern(s, gs)) == |gs|
    ensures Expand(Pattern(s, gs), values) == Fill(s, gs, values)
  {
    hide Expand, Wildcards;
    LastEnd(s, gs);
    var t := s[EndOf(gs, |gs|)..];
    ExpandPatternTo(s, gs, values, |gs|);
    ExpandPair(t, "");
    ExpandConcat(PatternTo(s, gs, |gs|), [Literal(t)], values[..|gs|], []);
    assert values[..|gs|] + [] == values;
  }

  // ----- The handler -----

  datatype Handler = PassThrough | Strip(toks: seq<Token>)

  datatype Response = Served(path: string, rawPath: string) | NotFound

  /** The loop that writes the pattern, group by group. */
  method Compile(prefix: string, idxs: seq<Span>) returns (pattern: seq<Token>)
    requires InOrder(prefix, idxs)
    ensures pattern == Pattern(prefix, idxs)
  {
    var end := 0;
    pattern := [];
    for i := 0 to |idxs|
      invariant end == EndOf(idxs, i)
      invariant pattern == PatternTo(prefix, idxs, i)
    {
      var raw := prefix[end..idxs[i].start];
      end := idxs[i].end;
      pattern := pattern + [Literal(raw), Wildcard];
    }
    LastEnd(prefix, idxs);
    var raw := prefix[end..];
    pattern := pattern + [Literal(raw)];
  }

  lemma TemplateGroupsUnique(s: string, p: seq<Span>, q: seq<Span>)
    requires TemplateGroups(s, p) && TemplateGroups(s, q)
    ensures p == q
  {
    hide Groups, Balanced;
    if Balanced(s) {
      GroupsUnique(s, p, q);
    }
  }

  /** The pattern is that of the template's groups; `BraceIndices` shows that there are such. */
  method MakeHandler(prefix: string) returns (h: Handler)
    ensures prefix == "" ==>
      h == PassThrough && forall path, rawPath :: Serve(h, path, rawPath) == Served(path, rawPath)
    ensures prefix != "" ==> h.Strip?
    ensures forall gs | prefix != "" && TemplateGroups(prefix, gs) && InOrder(prefix, gs) ::
      h.toks == Pattern(prefix, gs)
  {
    if prefix == "" {
      return PassThrough;
    }
    var idxs := BraceIndices(prefix);
    GroupsInOrder(prefix, idxs);
    var pattern := Compile(prefix, idxs);
    hide TemplateGroups, Pattern;
    forall gs | TemplateGroups(prefix, gs) && InOrder(prefix, gs) ensures pattern == Pattern(prefix, gs) {
      TemplateGroupsUnique(prefix, gs, idxs);
    }
    return Strip(pattern);
  }

  /** `ReplaceAllString` with an anchored pattern: what it matches at the front is removed. */
  function Replace(toks: seq<Token>, p: string): string {
    match MatchEnd(toks, p, 0)
    case None => p
    case Some(e) => p[e..]
  }

  function Serve(h: Handler, path: string, rawPath: string): Response {
    match h
    case PassThrough => Served(path, rawPath)
    case Strip(toks) =>
      var p, rp := Replace(toks, path), Replace(toks, rawPath);
      if |p| < |path| && (rawPath == "" || |rp| < |rawPath|) then Served(p, rp) else NotFound
  }

  lemma ExpandNonEmpty(s: string, gs: seq<Span>, values: seq<string>)
    requires s != "" && InOrder(s, gs) && |gs| == |values| && forall v <- values :: Segment(v)
    ensures Fill(s, gs, values) != ""
  {
    if gs != [] {
      assert values[|gs| - 1] in values;
    }
  }

  /** A compiled template never matches the empty string. */
  lemma MatchNonEmpty(s: string, gs: seq<Span>, p: string)
    requires s != "" && InOrder(s, gs)
    ensures MatchEnd(Pattern(s, gs), p, 0) != Some(0)
  {
    hide MatchEnd, Matches, Pattern, Fill, Expand;
    if MatchEnd(Pattern(s, gs), p, 0) == Some(0) {
      MatchSound(Pattern(s, gs), p, 0);
      var values := MatchesExpand(Pattern(s, gs), p, 0, 0);
      CountPattern(s, gs);
      ExpandPattern(s, gs, values);
      ExpandNonEmpty(s, gs, values);
      assert false;
    }
  }

  lemma CountPattern(s: string, gs: seq<Span>)
    requires InOrder(s, gs)
    ensures Wildcards(Pattern(s, gs)) == |gs|
  {
    ExpandPattern(s, gs, seq(|gs|, _ => ""));
  }

  /** `p` begins with a filling of the template. */
  ghost predicate Begins(s: string, gs: seq<Span>, p: string)
    requires InOrder(s, gs)
  {
    exists e: nat, values :: Prefixed(s, gs, p, e, values)
  }

  ghost predicate Prefixed(s: string, gs: seq<Span>, p: string, e: nat, values: seq<string>)
    requires InOrder(s, gs)
  {
    e <= |p| && |values| == |gs| && (forall v <- values :: Segment(v)) && p[..e] == Fill(s, gs, values)
  }

  lemma BeginsMatch(s: string, gs: seq<Span>, p: string)
    requires s != "" && InOrder(s, gs)
    ensures Begins(s, gs, p) <==> |Replace(Pattern(s, gs), p)| < |p|
  {
    hide MatchEnd, Matches, Pattern, Fill, Expand;
    var toks := Pattern(s, gs);
    MatchNonEmpty(s, gs, p);
    CountPattern(s, gs);
    if Begins(s, gs, p) {
      var e: nat, values :| Prefixed(s, gs, p, e, values);
      ExpandPattern(s, gs, values);
      assert p[0..e] == p[..e];
      ExpandMatches(toks, values, p, 0);
      MatchComplete(toks, p, 0, e);
    }
    if MatchEnd(toks, p, 0).Some? {
      var e := MatchEnd(toks, p, 0).value;
      MatchSound(toks, p, 0);
      var values := MatchesExpand(toks, p, 0, e);
      ExpandPattern(s, gs, values);
      assert p[0..e] == p[..e];
      assert Prefixed(s, gs, p, e, values);
    }
  }

  /** `rest` is what is left of `p` after a filling of the template. */
  ghost predicate Stripped(s: string, gs: seq<Span>, p: string, rest: string)
    requires InOrder(s, gs)
  {
    exists e: nat, values :: Prefixed(s, gs, p, e, values) && rest == p[e..]
  }

  lemma ReplaceStrips(s: string, gs: seq<Span>, p: string)
    requires s != "" && InOrder(s, gs)
    ensures var rest := Replace(Pattern(s, gs), p);
      rest == p || Stripped(s, gs, p, rest)
  {
    hide MatchEnd, Matches, Pattern, Fill, Expand;
    var toks := Pattern(s, gs);
    CountPattern(s, gs);
    if MatchEnd(toks, p, 0).Some? {
      var e := MatchEnd(toks, p, 0).value;
      MatchSound(toks, p, 0);
      var values := MatchesExpand(toks, p, 0, e);
      ExpandPattern(s, gs, values);
      assert p[0..e] == p[..e];
      assert Prefixed(s, gs, p, e, values);
    }
  }

  /**
   * A request is served exactly when its paths begin with a filling of the template, and then with
   * what is left of them after one.
   */
  lemma ServedIff(s: string, gs: seq<Span>, path: string, rawPath: string)
    requires s != "" && InOrder(s, gs)
    ensures Serve(Strip(Pattern(s, gs)), path, rawPath).Served? <==>
      Begins(s, gs, path) && (rawPath == "" || Begins(s, gs, rawPath))
    ensures match Serve(Strip(Pattern(s, gs)), path, rawPath)
      case Served(p, rp) => Stripped(s, gs, path, p) && if rawPath == "" then rp == "" else Stripped(s, gs, rawPath, rp)
      case NotFound => true
  {
    hide Pattern, MatchEnd, Begins, Stripped;
    BeginsMatch(s, gs, path);
    BeginsMatch(s, gs, rawPath);
    ReplaceStrips(s, gs, path);
    ReplaceStrips(s, gs, rawPath);
  }

  /**
   * Strip after expand: for every template, fill its groups with non-empty slash-free values and
   * append a rest that is empty or begins with a slash; stripping leaves exactly the rest.
   */
  lemma ReplaceExpanded(s: string, gs: seq<Span>, values: seq<string>, rest: string)
    requires s != "" && InOrder(s, gs)
    requires |values| == |gs| && forall v <- values :: Segment(v)
    requires AtSegmentEnd(rest)
    ensures Replace(Pattern(s, gs), Fill(s, gs, values) + rest) == rest && Fill(s, gs, values) != ""
  {
    hide MatchEnd, Matches, Pattern, Fill, Expand;
    var text := Fill(s, gs, values);
    var p := text + rest;
    ExpandPattern(s, gs, values);
    ExpandNonEmpty(s, gs, values);
    assert p[0..|text|] == text;
    ExpandMatches(Pattern(s, gs), values, p, 0);
    MatchAtSegmentEnd(Pattern(s, gs), p, 0, |text|);
    assert p[|text|..] == rest;
  }

  /** The same through the handler, with and without a raw path. */
  lemma ServeExpanded(s: string, gs: seq<Span>, values: seq<string>, rest: string,
                      rawValues: seq<string>, rawRest: string)
    requires s != "" && InOrder(s, gs)
    requires |values| == |gs| && (forall v <- values :: Segment(v)) && AtSegmentEnd(rest)
    requires |rawValues| == |gs| && (forall v <- rawValues :: Segment(v)) && AtSegmentEnd(rawRest)
    ensures var h, path, raw := Strip(Pattern(s, gs)), Fill(s, gs, values) + rest, Fill(s, gs, rawValues) + rawRest;
      Serve(h, path, "") == Served(rest, "") && Serve(h, path, raw) == Served(rest, rawRest)
  {
    hide Pattern, Fill, MatchEnd;
    ReplaceExpanded(s, gs, values, rest);
    ReplaceExpanded(s, gs, rawValues, rawRest);
    MatchNonEmpty(s, gs, "");
  }

  /** A request for a separated template determines the values it was filled with. */
  lemma FillUnique(s: string, gs: seq<Span>, v: seq<string>, rest: string, w: seq<string>, last: string)
    requires InOrder(s, gs) && Separated(Pattern(s, gs)) && |v| == |w| == |gs|
    requires (forall x <- v :: Segment(x)) && (forall x <- w :: Segment(x)) && AtSegmentEnd(rest) && AtSegmentEnd(last)
    requires Fill(s, gs, v) + rest == Fill(s, gs, w) + last
    ensures v == w && rest == last
  {
    hide Pattern, Fill, Expand, Separated;
    ExpandPattern(s, gs, v);
    ExpandPattern(s, gs, w);
    ExpandUnique(Pattern(s, gs), v, rest, w, last);
  }
}
