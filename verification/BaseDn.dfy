/** The search base: a DNS domain written as a distinguished name. */
module BaseDn {
  /** `strings.Split` at one character: always at least one piece. */
  function Split(s: string, c: char): (r: seq<string>)
    ensures r != []
  {
    if s == "" then [""]
    else if s[0] == c then [""] + Split(s[1..], c)
    else var r := Split(s[1..], c); [[s[0]] + r[0]] + r[1..]
  }

  function Join(pieces: seq<string>, c: char): string
    requires pieces != []
  {
    if |pieces| == 1 then pieces[0] else pieces[0] + [c] + Join(pieces[1..], c)
  }

  function Prefixed(labels: seq<string>): (r: seq<string>)
    ensures |r| == |labels|
  {
    seq(|labels|, i requires 0 <= i < |labels| => "dc=" + labels[i])
  }

  /** The loop of `ldapSearchUser` over the labels of the domain. */
  method Build(domain: string) returns (dn: string)
    ensures dn == Join(Prefixed(Split(domain, '.')), ',')
    ensures exists pieces ::
      && |pieces| == |Split(domain, '.')|
      && (forall i | 0 <= i < |pieces| :: pieces[i] == "dc=" + Split(domain, '.')[i])
      && dn == Join(pieces, ',')
  {
    var labels := Split(domain, '.');
    var baseDn := [];
    for i := 0 to |labels|
      invariant baseDn == Prefixed(labels)[..i]
    {
      baseDn := baseDn + ["dc=" + labels[i]];
    }
    assert Prefixed(labels)[..|labels|] == Prefixed(labels);
    assert baseDn == Prefixed(labels);
    dn := Join(baseDn, ',');
  }

  /** How often `c` occurs in `s`. */
  function Count(s: string, c: char): nat {
    if s == "" then 0 else (if s[0] == c then 1 else 0) + Count(s[1..], c)
  }

  lemma {:induction false} SplitCount(s: string, c: char)
    ensures |Split(s, c)| == Count(s, c) + 1
  {
    if s != "" {
      SplitCount(s[1..], c);
    }
  }

  lemma {:induction false} CountConcat(a: string, b: string, c: char)
    ensures Count(a + b, c) == Count(a, c) + Count(b, c)
  {
    if a == "" {
      assert a + b == b;
    } else {
      CountConcat(a[1..], b, c);
      assert (a + b)[1..] == a[1..] + b;
    }
  }

  /** Splitting at a separator undoes joining, when no piece holds it. */
  lemma {:induction false} SplitJoin(pieces: seq<string>, c: char)
    requires pieces != [] && forall p <- pieces :: Count(p, c) == 0
    ensures Split(Join(pieces, c), c) == pieces
    decreases |pieces|
  {
    assert pieces[0] in pieces;
    if |pieces| == 1 {
      SplitNone(pieces[0], c);
      assert pieces == [pieces[0]];
    } else {
      SplitJoin(pieces[1..], c);
      SplitFirst(pieces[0], Join(pieces[1..], c), c);
      assert pieces == [pieces[0]] + pieces[1..];
    }
  }

  lemma {:induction false} SplitNone(s: string, c: char)
    requires Count(s, c) == 0
    ensures Split(s, c) == [s]
  {
    if s != "" {
      SplitNone(s[1..], c);
      assert [s[0]] + s[1..] == s;
    }
  }

  lemma {:induction false} SplitFirst(s: string, rest: string, c: char)
    requires Count(s, c) == 0
    ensures Split(s + [c] + rest, c) == [s] + Split(rest, c)
  {
    if s == "" {
      assert (s + [c] + rest)[1..] == rest;
    } else {
      SplitFirst(s[1..], rest, c);
      assert (s + [c] + rest)[1..] == s[1..] + [c] + rest;
      assert [s[0]] + s[1..] == s;
    }
  }

  lemma {:induction false} JoinCount(pieces: seq<string>, c: char)
    requires pieces != []
    ensures Count(Join(pieces, c), c) >= |pieces| - 1
    ensures Count(Join(pieces, c), c) == |pieces| - 1 ==> forall p <- pieces :: Count(p, c) == 0
    decreases |pieces|
  {
    if |pieces| > 1 {
      JoinCount(pieces[1..], c);
      CountConcat(pieces[0] + [c], Join(pieces[1..], c), c);
      CountConcat(pieces[0], [c], c);
      assert Count([c], c) == 1 by { assert [c][1..] == ""; }
      assert pieces == [pieces[0]] + pieces[1..];
    } else {
      assert pieces == [pieces[0]];
    }
  }

  /**
   * Labels are not escaped: reading the name back at its commas gives one `dc` per label of the
   * domain exactly when no label holds a comma.
   */
  lemma BaseDnReadBack(domain: string)
    ensures var labels := Split(domain, '.');
      Split(Join(Prefixed(labels), ','), ',') == Prefixed(labels) <==> forall l <- labels :: Count(l, ',') == 0
  {
    var labels := Split(domain, '.');
    var pieces := Prefixed(labels);
    forall i | 0 <= i < |labels| ensures Count(pieces[i], ',') == Count(labels[i], ',') {
      CountConcat("dc=", labels[i], ',');
      NoComma();
    }
    if forall l <- labels :: Count(l, ',') == 0 {
      forall p <- pieces ensures Count(p, ',') == 0 {
        var i :| 0 <= i < |pieces| && pieces[i] == p;
        assert labels[i] in labels;
      }
      SplitJoin(pieces, ',');
    }
    if Split(Join(pieces, ','), ',') == pieces {
      SplitCount(Join(pieces, ','), ',');
      JoinCount(pieces, ',');
      forall l <- labels ensures Count(l, ',') == 0 {
        var i :| 0 <= i < |labels| && labels[i] == l;
        assert pieces[i] in pieces;
      }
    }
  }

  lemma NoComma()
    ensures Count("dc=", ',') == 0
  {
    assert "dc="[1..] == "c=" && "c="[1..] == "=" && "="[1..] == "";
    assert Count("=", ',') == 0;
    assert Count("c=", ',') == 0;
  }

  lemma {:induction false} JoinSplit(s: string, c: char)
    ensures Join(Split(s, c), c) == s
  {
    if s != "" {
      JoinSplit(s[1..], c);
      var r := Split(s[1..], c);
      if s[0] == c {
        assert ([""] + r)[1..] == r;
      } else {
        var pieces := Split(s, c);
        assert pieces[1..] == r[1..];
        JoinFirst(s[0], r, c);
      }
    }
  }

  lemma JoinFirst(x: char, r: seq<string>, c: char)
    requires r != []
    ensures Join([[x] + r[0]] + r[1..], c) == [x] + Join(r, c)
  {
    var pieces := [[x] + r[0]] + r[1..];
    assert pieces[1..] == r[1..];
    if |r| > 1 {
      assert [x] + r[0] + [c] + Join(r[1..], c) == [x] + (r[0] + [c] + Join(r[1..], c));
    }
  }

  function WithoutPrefixes(pieces: seq<string>): (r: seq<string>)
    requires forall p <- pieces :: |p| >= 3
    ensures |r| == |pieces| && forall i | 0 <= i < |r| :: r[i] == pieces[i][3..]
  {
    seq(|pieces|, i requires 0 <= i < |pieces| => pieces[i][3..])
  }

  /** Without commas, the domain itself can be read back: its labels stand behind `dc=`, in order. */
  lemma DomainReadBack(domain: string)
    requires forall l <- Split(domain, '.') :: Count(l, ',') == 0
    ensures var pieces := Split(Join(Prefixed(Split(domain, '.')), ','), ',');
      && (forall p <- pieces :: |p| >= 3 && p[..3] == "dc=")
      && Join(WithoutPrefixes(pieces), '.') == domain
  {
    hide Split, Join, Count;
    BaseDnReadBack(domain);
    var labels := Split(domain, '.');
    var pieces := Prefixed(labels);
    forall p <- pieces ensures |p| >= 3 && p[..3] == "dc=" {
      var i :| 0 <= i < |pieces| && pieces[i] == p;
    }
    assert WithoutPrefixes(pieces) == labels;
    JoinSplit(domain, '.');
  }
}
