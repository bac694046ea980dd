/** `_braceIndices`: the top-level brace groups of a route template, found with a nesting counter. */
module Braces {

  /** A group `s[start..end]`; the program keeps both numbers in one flat slice. */
  datatype Span = Span(start: nat, end: nat)

  predicate Brace(c: char) {
    c == '{' || c == '}'
  }

  function Delta(c: char): int {
    if c == '{' then 1 else if c == '}' then -1 else 0
  }

  /** How many braces are open before position `i`. */
  function Level(s: string, i: nat): int
    requires i <= |s|
  {
    if i == 0 then 0 else Level(s, i - 1) + Delta(s[i - 1])
  }

  ghost predicate Balanced(s: string) {
    (forall i | 0 <= i <= |s| :: Level(s, i) >= 0) && Level(s, |s|) == 0
  }

  /** A top-level group: it opens at level 0 and `end` is the first position back at level 0. */
  ghost predicate Group(s: string, g: Span) {
    && g.start < g.end <= |s| && s[g.start] == '{' && s[g.end - 1] == '}'
    && Level(s, g.start) == 0 && Level(s, g.end) == 0
    && forall k | g.start < k < g.end :: Level(s, k) > 0
  }

  ghost predicate Within(g: Span, p: int) {
    g.start <= p < g.end
  }

  /** Below `end`: the spans are groups, in order and apart, and no brace is outside them. */
  ghost predicate GroupsBelow(s: string, gs: seq<Span>, end: nat) {
    && end <= |s|
    && (forall g <- gs :: Group(s, g) && g.end <= end)
    && (forall i, j | 0 <= i < j < |gs| :: gs[i].end <= gs[j].start)
    && forall p | 0 <= p < end && Brace(s[p]) :: exists g :: g in gs && Within(g, p)
  }

  /** The maximal top-level groups of `s`, all of them. */
  ghost predicate Groups(s: string, gs: seq<Span>) {
    GroupsBelow(s, gs, |s|)
  }

  lemma Append(s: string, gs: seq<Span>, g: Span)
    requires GroupsBelow(s, gs, g.start) && Group(s, g)
    ensures GroupsBelow(s, gs + [g], g.end)
  {
    hide Group;
    StartsAtBrace(s, g);
    var more := gs + [g];
    assert g in more;
    assert forall h :: h in more <==> h in gs || h == g;
    forall p | 0 <= p < g.end && Brace(s[p])
      ensures exists h :: h in more && Within(h, p)
    {
      if p < g.start {
        var h :| h in gs && Within(h, p);
        assert h in more;
      } else {
        assert Within(g, p);
      }
    }
  }

  lemma Advance(s: string, gs: seq<Span>, i: nat)
    requires i < |s| && GroupsBelow(s, gs, i) && !Brace(s[i])
    ensures GroupsBelow(s, gs, i + 1)
  {
    hide Level;
  }

  /** All groups of a balanced string; nothing for an unbalanced one. */
  method BraceIndices(s: string) returns (idxs: seq<Span>)
    ensures Balanced(s) ==> Groups(s, idxs)
    ensures !Balanced(s) ==> idxs == []
  {
    hide GroupsBelow, Group;
    var level, idx := 0, 0;
    idxs := [];
    assert GroupsBelow(s, [], 0) by { Nothing(s); }
    for i := 0 to |s|
      invariant level == Level(s, i) >= 0
      invariant forall k | 0 <= k <= i :: Level(s, k) >= 0
      invariant level == 0 ==> GroupsBelow(s, idxs, i)
      invariant level > 0 ==> idx < i && GroupsBelow(s, idxs, idx) && Open(s, idx, i)
    {
      match s[i] {
        case '{' =>
          level := level + 1;
          if level == 1 {
            idx := i;
          }
        case '}' =>
          level := level - 1;
          if level == 0 {
            Close(s, idx, i);
            Append(s, idxs, Span(idx, i + 1));
            idxs := idxs + [Span(idx, i + 1)];
          } else if level < 0 {
            assert Level(s, i + 1) < 0;
            return [];
          }
        case _ =>
          if level == 0 {
            Advance(s, idxs, i);
          }
      }
    }
    if level != 0 {
      return [];
    }
  }

  lemma Nothing(s: string)
    ensures GroupsBelow(s, [], 0)
  {
  }

  /** A group that opened at `a` is still open at `i`. */
  ghost predicate Open(s: string, a: nat, i: nat) {
    a < i <= |s| && s[a] == '{' && Level(s, a) == 0 && forall k | a < k <= i :: Level(s, k) > 0
  }

  lemma Close(s: string, a: nat, i: nat)
    requires i < |s| && Open(s, a, i) && Level(s, i + 1) == 0
    ensures Group(s, Span(a, i + 1))
  {
  }

  lemma StartsAtBrace(s: string, g: Span)
    requires Group(s, g)
    ensures g.start < g.end <= |s| && Brace(s[g.start])
  {
    hide Level;
  }

  lemma SameGroup(s: string, g: Span, h: Span)
    requires Group(s, g) && Group(s, h) && Within(h, g.start)
    ensures g == h
  {
    hide Level;
  }

  /** A group of one list is a group of any other. */
  lemma Shared(s: string, p: seq<Span>, q: seq<Span>, k: nat) returns (j: nat)
    requires Groups(s, p) && Groups(s, q) && k < |p|
    ensures j < |q| && q[j] == p[k]
  {
    hide Group;
    var g := p[k];
    assert g in p && Group(s, g);
    StartsAtBrace(s, g);
    var h :| h in q && Within(h, g.start);
    SameGroup(s, g, h);
    j :| 0 <= j < |q| && q[j] == h;
  }

  lemma NotBelow(s: string, p: seq<Span>, q: seq<Span>, i: nat, j: nat)
    requires Groups(s, p) && i < |p| && j < |q| && q[j] == p[i] && i <= |q| && p[..i] == q[..i]
    ensures i <= j
  {
    hide Groups;
    assert forall x | 0 <= x < i :: p[x] == p[..i][x] == q[..i][x] == q[x];
    Distinct(s, p, j, i);
  }

  lemma SameNext(s: string, p: seq<Span>, q: seq<Span>, i: nat)
    requires Groups(s, p) && Groups(s, q) && i < |p| && i <= |q| && p[..i] == q[..i]
    ensures i < |q| && q[i] == p[i]
  {
    hide Groups;
    var j := Shared(s, p, q, i);
    NotBelow(s, p, q, i, j);
    if i < j {
      var m := Shared(s, q, p, i);
      NotBelow(s, q, p, i, m);
      Distinct(s, q, i, j);
      Distinct(s, p, i, m);
      assert false;
    }
  }

  lemma {:induction false} SamePrefix(s: string, p: seq<Span>, q: seq<Span>, k: nat)
    requires Groups(s, p) && Groups(s, q) && k <= |p|
    ensures k <= |q| && p[..k] == q[..k]
    decreases k
  {
    hide Groups;
    if k > 0 {
      SamePrefix(s, p, q, k - 1);
      SameNext(s, p, q, k - 1);
      assert p[..k] == p[..k - 1] + [p[k - 1]] && q[..k] == q[..k - 1] + [q[k - 1]];
    }
  }

  lemma Distinct(s: string, p: seq<Span>, i: nat, j: nat)
    requires Groups(s, p)
    ensures i < j < |p| ==> p[i].start < p[j].start
  {
    hide Level;
    if i < j < |p| {
      assert p[i] in p && Group(s, p[i]);
    }
  }

  /** The groups of a string are unique: `Groups` determines the result of `BraceIndices`. */
  lemma GroupsUnique(s: string, p: seq<Span>, q: seq<Span>)
    requires Groups(s, p) && Groups(s, q)
    ensures p == q
  {
    hide Groups;
    SamePrefix(s, p, q, |p|);
    SamePrefix(s, q, p, |q|);
    assert p[..|p|] == p && q[..|q|] == q;
  }

  /** A balanced string has no groups exactly when it has no braces. */
  lemma GroupsEmpty(s: string, gs: seq<Span>)
    requires Groups(s, gs)
    ensures gs == [] <==> forall p | 0 <= p < |s| :: !Brace(s[p])
  {
    hide Level;
    if gs != [] {
      assert gs[0] in gs && Group(s, gs[0]) && Brace(s[gs[0].start]);
    }
  }
}
