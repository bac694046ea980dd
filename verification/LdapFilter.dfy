/**
 * LDAP search filters: the text the server builds, and a parser for the string representation of
 * filters (section 3 of RFC 4515, with the empty AND and OR of section 2 of RFC 4526).
 */
module LdapFilter {
  import opened Wrappers
  import opened Hex

  datatype Filter =
    | And(fs: seq<Filter>)
    | Or(fs: seq<Filter>)
    | Not(f: Filter)
    | Equal(attr: string, value: string)
    | Present(attr: string)
    | Substrings(attr: string, pieces: seq<string>)
    | GreaterOrEqual(attr: string, value: string)
    | LessOrEqual(attr: string, value: string)
    | Approx(attr: string, value: string)

  // ----- Building -----

  const HEX: string := "0123456789abcdef"

  predicate MustEscape(c: char) {
    c > 0x7f as char || c == '(' || c == ')' || c == '\\' || c == '*' || c == 0 as char
  }

  /** Strings hold octets; a character that is not one is left alone. */
  function EscapeChar(c: char): string {
    if MustEscape(c) && c < 256 as char then ['\\', HEX[c as int / 16], HEX[c as int % 16]] else [c]
  }

  /** The library's `EscapeFilter`. */
  function Escape(s: string): string {
    if s == "" then "" else EscapeChar(s[0]) + Escape(s[1..])
  }

  function Concat(ss: seq<string>): string {
    if ss == [] then "" else ss[0] + Concat(ss[1..])
  }

  function MemberOf(group: string): string {
    "(memberOf=" + Escape(group) + ")"
  }

  function MemberOfs(groups: seq<string>): (r: seq<string>)
    ensures |r| == |groups|
  {
    seq(|groups|, i requires 0 <= i < |groups| => MemberOf(groups[i]))
  }

  function Text(username: string, groups: seq<string>): string {
    "(&(sAMAccountName=" + Escape(username) + ")(|" + Concat(MemberOfs(groups)) + "))"
  }

  /** The loop and the formatting of `ldapSearchUser`. */
  method BuildFilter(username: string, groups: seq<string>) returns (filter: string)
    ensures filter == Text(username, groups)
  {
    var gfilter := [];
    for i := 0 to |groups|
      invariant gfilter == MemberOfs(groups)[..i]
    {
      gfilter := gfilter + ["(memberOf=" + Escape(groups[i]) + ")"];
    }
    assert MemberOfs(groups)[..|groups|] == MemberOfs(groups);
    filter := "(&(sAMAccountName=" + Escape(username) + ")(|" + Concat(gfilter) + "))";
  }

  // ----- Parsing -----

  datatype Parsed<+T> = NoParse | Parsed(value: T, rest: string)

  predicate AttrChar(c: char) {
    'a' <= c <= 'z' || 'A' <= c <= 'Z' || '0' <= c <= '9' || c == '-' || c == ';' || c == '.'
  }

  /** attr: the longest run of attribute-description characters. */
  function AttrEnd(s: string): (n: nat)
    ensures n <= |s|
  {
    if s != "" && AttrChar(s[0]) then 1 + AttrEnd(s[1..]) else 0
  }

  function Cons(c: char, ps: seq<string>): seq<string>
    requires ps != []
  {
    [[c] + ps[0]] + ps[1..]
  }

  /** The assertion value up to the closing parenthesis, cut at every asterisk, escapes undone. */
  function ParsePieces(s: string): (r: Parsed<seq<string>>)
    ensures r.Parsed? ==> r.value != [] && |r.rest| <= |s|
  {
    if s == "" || s[0] == '(' || s[0] == 0 as char then NoParse
    else if s[0] == ')' then Parsed([""], s)
    else if s[0] == '*' then
      match ParsePieces(s[1..])
      case NoParse => NoParse
      case Parsed(ps, rest) => Parsed([""] + ps, rest)
    else if s[0] == '\\' then
      if |s| < 3 || HexDigit(s[1]).None? || HexDigit(s[2]).None? then NoParse
      else match ParsePieces(s[3..])
        case NoParse => NoParse
        case Parsed(ps, rest) => Parsed(Cons((16 * HexDigit(s[1]).value + HexDigit(s[2]).value) as char, ps), rest)
    else match ParsePieces(s[1..])
      case NoParse => NoParse
      case Parsed(ps, rest) => Parsed(Cons(s[0], ps), rest)
  }

  /** item: simple, present or substring. */
  function ParseItem(s: string): (r: Parsed<Filter>)
    ensures r.Parsed? ==> |r.rest| <= |s|
  {
    var n := AttrEnd(s);
    var attr, op := s[..n], s[n..];
    if n == 0 || op == "" then NoParse
    else if op[0] == '=' then
      match ParsePieces(op[1..])
      case NoParse => NoParse
      case Parsed(ps, rest) =>
        if |ps| == 1 then Parsed(Equal(attr, ps[0]), rest)
        else if ps == ["", ""] then Parsed(Present(attr), rest)
        else Parsed(Substrings(attr, ps), rest)
    else if |op| >= 2 && op[1] == '=' && op[0] in "~><" then
      match ParsePieces(op[2..])
      case NoParse => NoParse
      case Parsed(ps, rest) =>
        if |ps| != 1 then NoParse
        else if op[0] == '~' then Parsed(Approx(attr, ps[0]), rest)
        else if op[0] == '>' then Parsed(GreaterOrEqual(attr, ps[0]), rest)
        else Parsed(LessOrEqual(attr, ps[0]), rest)
    else NoParse
  }

  /** filter = "(" filtercomp ")" */
  function ParseFilter(s: string): (r: Parsed<Filter>)
    ensures r.Parsed? ==> |r.rest| < |s|
    decreases |s|, 1
  {
    if |s| < 2 || s[0] != '(' then NoParse
    else if s[1] == '&' then
      (match ParseList(s[2..]) case NoParse => NoParse case Parsed(fs, rest) => Close(And(fs), rest))
    else if s[1] == '|' then
      (match ParseList(s[2..]) case NoParse => NoParse case Parsed(fs, rest) => Close(Or(fs), rest))
    else if s[1] == '!' then
      (match ParseFilter(s[2..]) case NoParse => NoParse case Parsed(f, rest) => Close(Not(f), rest))
    else
      (match ParseItem(s[1..]) case NoParse => NoParse case Parsed(f, rest) => Close(f, rest))
  }

  function Close(f: Filter, s: string): (r: Parsed<Filter>)
    ensures r.Parsed? ==> |r.rest| < |s|
  {
    if s != "" && s[0] == ')' then Parsed(f, s[1..]) else NoParse
  }

  /** filterlist, possibly empty: filters for as long as there is an opening parenthesis. */
  function ParseList(s: string): (r: Parsed<seq<Filter>>)
    ensures r.Parsed? ==> |r.rest| <= |s|
    decreases |s|, 2
  {
    if s == "" || s[0] != '(' then Parsed([], s)
    else match ParseFilter(s)
      case NoParse => NoParse
      case Parsed(f, rest) =>
        match ParseList(rest)
        case NoParse => NoParse
        case Parsed(fs, last) => Parsed([f] + fs, last)
  }

  function Parse(s: string): Option<Filter> {
    match ParseFilter(s)
    case NoParse => None
    case Parsed(f, rest) => if rest == "" then Some(f) else None
  }

  // ----- What was built is what is parsed -----

  lemma EscapedChar(c: char, rest: string, ps: seq<string>, last: string)
    requires ParsePieces(rest) == Parsed(ps, last)
    ensures ps != [] && ParsePieces(EscapeChar(c) + rest) == Parsed(Cons(c, ps), last)
  {
    var s := EscapeChar(c) + rest;
    if MustEscape(c) && c < 256 as char {
      var hi, lo := c as int / 16, c as int % 16;
      HexRoundTrip(hi);
      HexRoundTrip(lo);
      assert s[3..] == rest && s[1] == HEX[hi] && s[2] == HEX[lo];
      assert (16 * hi + lo) as char == c;
    } else {
      assert s[1..] == rest && s[0] == c;
    }
  }

  lemma HexRoundTrip(n: nat)
    requires n < 16
    ensures HexDigit(HEX[n]) == Some(n)
  {
    assert forall i | 0 <= i < 10 :: HEX[i] as int == '0' as int + i;
    assert forall i | 10 <= i < 16 :: HEX[i] as int == 'a' as int + i - 10;
  }

  /** An escaped value reads back as itself, in one piece, whatever octets it holds. */
  lemma {:induction false} EscapedValue(v: string, rest: string)
    ensures ParsePieces(Escape(v) + ")" + rest) == Parsed([v], ")" + rest)
    decreases |v|
  {
    hide ParsePieces, EscapeChar;
    var tail := ")" + rest;
    if v == "" {
      assert Escape(v) + ")" + rest == tail;
      PiecesEnd(rest);
    } else {
      var more := Escape(v[1..]);
      EscapedValue(v[1..], rest);
      assert more + ")" + rest == more + tail;
      EscapedChar(v[0], more + tail, [v[1..]], tail);
      assert Escape(v) + ")" + rest == EscapeChar(v[0]) + (more + tail);
      assert Cons(v[0], [v[1..]]) == [v] by { assert [v[0]] + v[1..] == v; }
    }
  }

  lemma PiecesEnd(rest: string)
    ensures ParsePieces(")" + rest) == Parsed([""], ")" + rest)
  {
  }

  lemma {:induction false} AttrRun(attr: string, rest: string)
    requires forall i | 0 <= i < |attr| :: AttrChar(attr[i])
    requires rest != "" && !AttrChar(rest[0])
    ensures AttrEnd(attr + rest) == |attr|
    decreases |attr|
  {
    if attr == "" {
      assert attr + rest == rest;
    } else {
      AttrRun(attr[1..], rest);
      assert (attr + rest)[1..] == attr[1..] + rest;
    }
  }

  lemma ItemParsed(attr: string, x: string, v: string, rest: string)
    requires attr != "" && (forall i | 0 <= i < |attr| :: AttrChar(attr[i]))
    requires ParsePieces(x) == Parsed([v], rest)
    ensures ParseItem(attr + ("=" + x)) == Parsed(Equal(attr, v), rest)
  {
    hide ParsePieces, AttrEnd;
    var op := "=" + x;
    var item := attr + op;
    AttrRun(attr, op);
    assert item[..|attr|] == attr && item[|attr|..] == op && op[1..] == x;
  }

  lemma ItemInParentheses(item: string, f: Filter, rest: string)
    requires item != "" && item[0] != '&' && item[0] != '|' && item[0] != '!'
    requires ParseItem(item) == Parsed(f, ")" + rest)
    ensures ParseFilter("(" + item) == Parsed(f, rest)
  {
    hide ParseItem, ParseList;
    var s := "(" + item;
    assert s[0] == '(' && s[1] == item[0] && s[1..] == item;
    assert (")" + rest)[1..] == rest;
  }

  /** An equality item with an escaped value is parsed as that equality, never as a pattern. */
  lemma EqualityParsed(attr: string, v: string, rest: string)
    requires attr != "" && (forall i | 0 <= i < |attr| :: AttrChar(attr[i]))
    ensures ParseFilter("(" + attr + "=" + Escape(v) + ")" + rest) == Parsed(Equal(attr, v), rest)
  {
    hide ParsePieces, ParseItem, ParseFilter, Escape;
    var x := Escape(v) + ")" + rest;
    var item := attr + ("=" + x);
    EscapedValue(v, rest);
    ItemParsed(attr, x, v, ")" + rest);
    assert AttrChar(attr[0]) && item[0] == attr[0];
    ItemInParentheses(item, Equal(attr, v), rest);
    assert "(" + attr + "=" + Escape(v) + ")" + rest == "(" + item;
  }

  function Members(groups: seq<string>): seq<Filter> {
    seq(|groups|, i requires 0 <= i < |groups| => Equal("memberOf", groups[i]))
  }

  lemma {:induction false} MembersParsed(groups: seq<string>, rest: string)
    requires rest != "" && rest[0] == ')'
    ensures ParseList(Concat(MemberOfs(groups)) + rest) == Parsed(Members(groups), rest)
    decreases |groups|
  {
    hide ParseFilter, Escape, MemberOf, MemberOfs, Members, Concat;
    NoMembers();
    if groups == [] {
      assert "" + rest == rest;
    } else {
      var g, more := groups[0], groups[1..];
      var tail := Concat(MemberOfs(more)) + rest;
      MoreMembers(groups);
      MembersParsed(more, rest);
      assert (MemberOf(g) + Concat(MemberOfs(more))) + rest == MemberOf(g) + tail;
      MemberParsed(g, tail);
      assert ParseList(MemberOf(g) + tail) == Parsed([Equal("memberOf", g)] + Members(more), rest);
    }
  }

  lemma NoMembers()
    ensures Concat(MemberOfs([])) == "" && Members([]) == []
  {
  }

  lemma MoreMembers(groups: seq<string>)
    requires groups != []
    ensures Concat(MemberOfs(groups)) == MemberOf(groups[0]) + Concat(MemberOfs(groups[1..]))
    ensures Members(groups) == [Equal("memberOf", groups[0])] + Members(groups[1..])
  {
    hide MemberOf;
    assert MemberOfs(groups)[1..] == MemberOfs(groups[1..]);
  }

  lemma MemberParsed(g: string, tail: string)
    ensures MemberOf(g) != "" && (MemberOf(g) + tail)[0] == '('
    ensures ParseFilter(MemberOf(g) + tail) == Parsed(Equal("memberOf", g), tail)
  {
    hide ParseFilter, Escape;
    EqualityParsed("memberOf", g, tail);
    assert MemberOf(g) + tail == "(" + "memberOf" + "=" + Escape(g) + ")" + tail;
  }

  /**
   * For every user name and every list of groups, whatever octets they hold, the filter means
   * exactly: this account name, and one of these groups.
   */
  lemma FilterParsed(username: string, groups: seq<string>)
    ensures Parse(Text(username, groups)) == Some(And([Equal("sAMAccountName", username), Or(Members(groups))]))
  {
    hide Escape, ParseItem, Concat, Members, ParseFilter, ParseList;
    var ors := "(|" + Concat(MemberOfs(groups)) + "))";
    var body := "(" + "sAMAccountName" + "=" + Escape(username) + ")" + ors;
    OrParsed(groups, ors);
    EqualityParsed("sAMAccountName", username, ors);
    ListOfTwo(body, Equal("sAMAccountName", username), ors, Or(Members(groups)), ")");
    TextShape(Escape(username), Concat(MemberOfs(groups)));
    AndParsed(body, [Equal("sAMAccountName", username), Or(Members(groups))]);
  }

  lemma TextShape(e: string, c: string)
    ensures "(&(sAMAccountName=" + e + ")(|" + c + "))" ==
      "(&" + ("(" + "sAMAccountName" + "=" + e + ")" + ("(|" + c + "))"))
  {
  }

  lemma AndParsed(body: string, fs: seq<Filter>)
    requires ParseList(body) == Parsed(fs, ")")
    ensures ParseFilter("(&" + body) == Parsed(And(fs), "")
  {
    hide ParseList;
    assert ("(&" + body)[2..] == body;
  }

  lemma OrParsed(groups: seq<string>, ors: string)
    requires ors == "(|" + Concat(MemberOfs(groups)) + "))"
    ensures ParseFilter(ors) == Parsed(Or(Members(groups)), ")")
  {
    hide Concat, Members, MemberOfs, ParseFilter, ParseList;
    var body := Concat(MemberOfs(groups)) + "))";
    MembersParsed(groups, "))");
    assert ors == "(|" + body;
    OrClosed(body, Members(groups));
  }

  lemma OrClosed(body: string, fs: seq<Filter>)
    requires ParseList(body) == Parsed(fs, "))")
    ensures ParseFilter("(|" + body) == Parsed(Or(fs), ")")
  {
    hide ParseList;
    assert ("(|" + body)[2..] == body;
    assert "))"[1..] == ")";
  }

  lemma ListOfTwo(s: string, f: Filter, rest: string, g: Filter, last: string)
    requires s != "" && s[0] == '(' && ParseFilter(s) == Parsed(f, rest)
    requires rest != "" && rest[0] == '(' && ParseFilter(rest) == Parsed(g, last)
    requires last == "" || last[0] != '('
    ensures ParseList(s) == Parsed([f, g], last)
  {
    hide ParseFilter;
    assert ParseList(last) == Parsed([], last);
    assert ParseList(rest) == Parsed([g] + [], last);
    assert [f] + ([g] + []) == [f, g];
  }

  // ----- The text itself -----

  /** Neither a special character of filters nor beyond ASCII. */
  predicate Plain(s: string) {
    forall c <- s :: 0 as char < c <= 0x7f as char && c !in "()*\\"
  }

  /** What is plain is left alone. */
  lemma {:induction false} EscapePlain(s: string)
    requires Plain(s)
    ensures Escape(s) == s
  {
    if s != "" {
      assert s[0] in s && forall c <- s[1..] :: c in s;
      EscapePlain(s[1..]);
      assert [s[0]] + s[1..] == s;
    }
  }

  /** The rest becomes a backslash and two lower-case hexadecimal digits. */
  lemma EscapeSpecial(c: char)
    requires c < 256 as char
    ensures Escape("(") == "\\28" && Escape(")") == "\\29" && Escape("*") == "\\2a" && Escape("\\") == "\\5c"
    ensures Escape("\0") == "\\00"
    ensures c > 0x7f as char ==>
      Escape([c]) == ['\\', "0123456789abcdef"[c as int / 16], "0123456789abcdef"[c as int % 16]]
  {
    EscapeOne('(');
    EscapeOne(')');
    EscapeOne('*');
    EscapeOne('\\');
    EscapeOne('\0');
    EscapeOne(c);
  }

  lemma EscapeOne(c: char)
    ensures Escape([c]) == EscapeChar(c)
  {
    assert [c][1..] == "" && EscapeChar(c) + "" == EscapeChar(c);
  }

  /** The filter for a plain account and plain groups, letter by letter. */
  lemma PlainText(username: string, g: string, h: string)
    requires Plain(username) && Plain(g) && Plain(h)
    ensures Text(username, []) == "(&(sAMAccountName=" + username + ")(|))"
    ensures Text(username, [g, h]) ==
      "(&(sAMAccountName=" + username + ")(|(memberOf=" + g + ")(memberOf=" + h + ")))"
  {
    hide Escape, Concat;
    EscapePlain(username);
    EscapePlain(g);
    EscapePlain(h);
    NoMembers();
    MoreMembers([g, h]);
    MoreMembers([h]);
    assert [g, h][1..] == [h] && [h][1..] == [];
    assert Concat(MemberOfs([g, h])) == "(memberOf=" + g + ")(memberOf=" + h + ")" by {
      assert Concat(MemberOfs([h])) == MemberOf(h) + "";
    }
  }

  // ----- Meaning -----

  /** An entry of the directory: the values of its attributes. */
  type Entry = map<string, set<string>>

  /**
   * Whether an entry matches; equality compares octets. `other` answers for the items whose
   * matching rules are not modelled.
   */
  predicate Holds(f: Filter, e: Entry, other: Filter -> bool) {
    match f
    case And(fs) => forall g <- fs :: Holds(g, e, other)
    case Or(fs) => exists g <- fs :: Holds(g, e, other)
    case Not(g) => !Holds(g, e, other)
    case Equal(a, v) => a in e && v in e[a]
    case Present(a) => a in e && e[a] != {}
    case _ => other(f)
  }

  predicate Has(e: Entry, attr: string, v: string) {
    attr in e && v in e[attr]
  }

  /** The filter selects the entries of that account in one of those groups; order and repetition are irrelevant. */
  lemma FilterMeaning(username: string, groups: seq<string>, e: Entry, other: Filter -> bool)
    ensures Parse(Text(username, groups)).Some?
    ensures Holds(Parse(Text(username, groups)).value, e, other) <==>
      Has(e, "sAMAccountName", username) && exists g <- groups :: Has(e, "memberOf", g)
  {
    hide Text, Parse;
    FilterParsed(username, groups);
    var account, ors := Equal("sAMAccountName", username), Or(Members(groups));
    assert Holds(account, e, other) <==> Has(e, "sAMAccountName", username);
    assert Holds(ors, e, other) <==> exists g <- groups :: Has(e, "memberOf", g) by {
      if Holds(ors, e, other) {
        var f :| f in Members(groups) && Holds(f, e, other);
        assert f.value in groups && Has(e, "memberOf", f.value);
      }
      if exists g <- groups :: Has(e, "memberOf", g) {
        var g :| g in groups && Has(e, "memberOf", g);
        var i :| 0 <= i < |groups| && groups[i] == g;
        assert Members(groups)[i] == Equal("memberOf", g) && Holds(Members(groups)[i], e, other);
      }
    }
    assert Holds(And([account, ors]), e, other) <==> Holds(account, e, other) && Holds(ors, e, other) by {
      assert account in [account, ors] && ors in [account, ors];
    }
  }
}
