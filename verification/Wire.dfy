/**
 * The Protocol Buffers wire format, from the Encoding guide ("Base 128 Varints", "Message
 * Structure", "Length-Delimited Records", "Groups"): a scanner from bytes to records, a printer
 * from records to bytes, and the facts that make one undo the other.
 */
module Wire {
  import opened Wrappers

  type Byte = b: int | 0 <= b < 256
  type Bytes = seq<Byte>

  const TWO_TO_THE_32: nat := 0x1_0000_0000
  const TWO_TO_THE_64: nat := 0x1_0000_0000_0000_0000

  /** No varint is longer than this many bytes. */
  const MAX_VARINT: nat := 10

  /** What a read at the front of a byte string yields: a value and the bytes it took. */
  datatype Read<+T> = Bad | Got(value: T, size: nat)

  datatype Tag = Tag(field: nat, wire: nat)

  datatype Record =
    | Varint(field: nat, value: nat)
    | Fixed64(field: nat, raw: Bytes)
    | Delimited(field: nat, payload: Bytes)
    | Group(field: nat, body: seq<Record>)
    | Fixed32(field: nat, raw: Bytes)

  /** A message body: its records up to the end, or up to the first stray end-group tag. */
  datatype Scanned = Malformed | Records(rs: seq<Record>, stopped: bool)

  // ----- Varints -----

  function EncodeVarint(n: nat): (s: Bytes)
  {
    if n < 128 then [n] else [n % 128 + 128] + EncodeVarint(n / 128)
  }

  /** The varint at the front of `s`, when it ends within `fuel` bytes. */
  function DecodeVarint(s: Bytes, fuel: nat): (r: Read<nat>)
    ensures r.Got? ==> 1 <= r.size <= |s|
    decreases |s|
  {
    if fuel == 0 || s == [] then Bad
    else if s[0] < 128 then Got(s[0], 1)
    else match DecodeVarint(s[1..], fuel - 1)
      case Bad => Bad
      case Got(v, n) => Got(s[0] - 128 + 128 * v, n + 1)
  }

  /** A varint kept to its low 64 bits. */
  function VarintAt(s: Bytes): (r: Read<nat>)
    ensures r.Got? ==> 1 <= r.size <= |s| && r.value < TWO_TO_THE_64
  {
    match DecodeVarint(s, MAX_VARINT)
    case Bad => Bad
    case Got(v, n) => Got(v % TWO_TO_THE_64, n)
  }

  /** A varint kept to its low 32 bits: tags and lengths. */
  function Varint32At(s: Bytes): (r: Read<nat>)
    ensures r.Got? ==> 1 <= r.size <= |s| && r.value < TWO_TO_THE_32
  {
    match DecodeVarint(s, MAX_VARINT)
    case Bad => Bad
    case Got(v, n) => Got(v % TWO_TO_THE_32, n)
  }

  ghost function Pow128(k: nat): nat {
    if k == 0 then 1 else 128 * Pow128(k - 1)
  }

  lemma {:induction false} DecodeEncoded(n: nat, k: nat, s: Bytes)
    requires 1 <= k && n < Pow128(k)
    ensures DecodeVarint(EncodeVarint(n) + s, k) == Got(n, |EncodeVarint(n)|)
    decreases k
  {
    if n >= 128 {
      DecodeEncoded(n / 128, k - 1, s);
      assert (EncodeVarint(n) + s)[1..] == EncodeVarint(n / 128) + s;
    }
  }

  /** Every 64-bit number is read back from its varint, whatever follows. */
  lemma VarintRoundTrip(n: nat, s: Bytes)
    requires n < TWO_TO_THE_64
    ensures VarintAt(EncodeVarint(n) + s) == Got(n, |EncodeVarint(n)|)
    ensures n < TWO_TO_THE_32 ==> Varint32At(EncodeVarint(n) + s) == Got(n, |EncodeVarint(n)|)
  {
    hide EncodeVarint, DecodeVarint, Pow128;
    TenGroups();
    DecodeEncoded(n, MAX_VARINT, s);
  }

  lemma TenGroups()
    ensures Pow128(10) == 0x40_0000_0000_0000_0000
  {
    assert Pow128(2) == 0x4000;
    assert Pow128(4) == 0x1000_0000;
    assert Pow128(6) == 0x400_0000_0000;
    assert Pow128(8) == 0x100_0000_0000_0000;
  }

  lemma {:induction false} DecodeStable(s: Bytes, u: Bytes, fuel: nat)
    requires DecodeVarint(s, fuel).Got?
    ensures DecodeVarint(s + u, fuel) == DecodeVarint(s, fuel)
    decreases fuel
  {
    if s[0] >= 128 {
      DecodeStable(s[1..], u, fuel - 1);
      assert (s + u)[1..] == s[1..] + u;
    }
  }

  // ----- Scanning -----

  /** "Message Structure": the low three bits of a record's tag are its wire type. */
  function TagAt(s: Bytes): (r: Read<Tag>)
    ensures r.Got? ==> 1 <= r.size <= |s|
  {
    match Varint32At(s)
    case Bad => Bad
    case Got(v, n) => Got(Tag(v / 8, v % 8), n)
  }

  function PayloadAt(s: Bytes): (r: Read<Bytes>)
    ensures r.Got? ==> |r.value| < r.size <= |s| && r.value == s[r.size - |r.value|..r.size]
  {
    match Varint32At(s)
    case Bad => Bad
    case Got(len, n) => if |s| - n < len then Bad else Got(s[n..n + len], n + len)
  }

  /** The rest of the record whose tag is `t`. */
  function ValueAt(s: Bytes, t: Tag): (r: Read<Record>)
    ensures r.Got? ==> r.size <= |s| && r.value.field == t.field
    ensures r.Got? && r.value.Delimited? ==> |r.value.payload| < r.size
    decreases |s|, 1
  {
    match t.wire
    case 0 => (match VarintAt(s) case Bad => Bad case Got(v, n) => Got(Varint(t.field, v), n))
    case 1 => if |s| < 8 then Bad else Got(Fixed64(t.field, s[..8]), 8)
    case 2 => (match PayloadAt(s) case Bad => Bad case Got(p, n) => Got(Delimited(t.field, p), n))
    case 3 => (match GroupAt(s, t.field) case Bad => Bad case Got(rs, n) => Got(Group(t.field, rs), n))
    case 5 => if |s| < 4 then Bad else Got(Fixed32(t.field, s[..4]), 4)
    case _ => Bad
  }

  /** The records of group `field`, up to and including its end tag. */
  function GroupAt(s: Bytes, field: nat): (r: Read<seq<Record>>)
    ensures r.Got? ==> r.size <= |s|
    decreases |s|, 0
  {
    match TagAt(s)
    case Bad => Bad
    case Got(t, n) =>
      if t.wire == 4 then (if t.field == field then Got([], n) else Bad)
      else match ValueAt(s[n..], t)
        case Bad => Bad
        case Got(r, k) =>
          match GroupAt(s[n + k..], field)
          case Bad => Bad
          case Got(rs, m) => Got([r] + rs, n + k + m)
  }

  function Prepend(rs: seq<Record>, x: Scanned): Scanned {
    match x
    case Malformed => Malformed
    case Records(qs, stopped) => Records(rs + qs, stopped)
  }

  function Scan(s: Bytes): Scanned
    decreases |s|
  {
    if s == [] then Records([], false)
    else match TagAt(s)
      case Bad => Malformed
      case Got(t, n) =>
        if t.wire == 4 then Records([], true)
        else match ValueAt(s[n..], t)
          case Bad => Malformed
          case Got(r, k) => Prepend([r], Scan(s[n + k..]))
  }

  /** `s` is a sequence of complete records, with no stray end-group tag. */
  predicate Whole(s: Bytes) {
    Scan(s).Records? && !Scan(s).stopped
  }

  // ----- Printing -----

  ghost predicate WellFormed(r: Record) {
    && r.field < 0x2000_0000
    && match r
       case Varint(_, v) => v < TWO_TO_THE_64
       case Fixed64(_, raw) => |raw| == 8
       case Delimited(_, p) => |p| < TWO_TO_THE_32
       case Group(_, body) => forall q <- body :: WellFormed(q)
       case Fixed32(_, raw) => |raw| == 4
  }

  function WireType(r: Record): nat {
    match r
    case Varint(_, _) => 0
    case Fixed64(_, _) => 1
    case Delimited(_, _) => 2
    case Group(_, _) => 3
    case Fixed32(_, _) => 5
  }

  function PrintTag(field: nat, wire: nat): Bytes
    requires wire < 8
  {
    EncodeVarint(8 * field + wire)
  }

  function PrintValue(r: Record): Bytes
    decreases r, 0
  {
    match r
    case Varint(_, v) => EncodeVarint(v)
    case Fixed64(_, raw) => raw
    case Delimited(_, p) => EncodeVarint(|p|) + p
    case Group(f, body) => PrintAll(body) + PrintTag(f, 4)
    case Fixed32(_, raw) => raw
  }

  function Print(r: Record): Bytes
    decreases r, 1
  {
    PrintTag(r.field, WireType(r)) + PrintValue(r)
  }

  function PrintAll(rs: seq<Record>): Bytes
    decreases rs
  {
    if rs == [] then [] else Print(rs[0]) + PrintAll(rs[1..])
  }

  lemma {:induction false} PrintAllConcat(a: seq<Record>, b: seq<Record>)
    ensures PrintAll(a + b) == PrintAll(a) + PrintAll(b)
  {
    hide Print;
    if a == [] {
      assert a + b == b;
    } else {
      PrintAllConcat(a[1..], b);
      assert (a + b)[1..] == a[1..] + b;
      assert PrintAll(a + b) == Print(a[0]) + PrintAll(a[1..] + b);
    }
  }

  lemma PrintOne(r: Record)
    ensures PrintAll([r]) == Print(r)
  {
    assert PrintAll([r]) == Print(r) + PrintAll([]);
  }

  /** The records of a repeated field. */
  function Elements(field: nat, ps: seq<Bytes>): (rs: seq<Record>)
    ensures |rs| == |ps| && forall i | 0 <= i < |ps| :: rs[i] == Delimited(field, ps[i])
  {
    seq(|ps|, i requires 0 <= i < |ps| => Delimited(field, ps[i]))
  }

  lemma PrintNothing(field: nat)
    ensures PrintAll(Elements(field, [])) == []
  {
  }

  lemma PrintElement(field: nat, ps: seq<Bytes>, i: nat)
    requires i < |ps|
    ensures PrintAll(Elements(field, ps[..i + 1])) ==
      PrintAll(Elements(field, ps[..i])) + Print(Delimited(field, ps[i]))
  {
    hide Print;
    var r := Delimited(field, ps[i]);
    assert Elements(field, ps[..i + 1]) == Elements(field, ps[..i]) + [r];
    PrintAllConcat(Elements(field, ps[..i]), [r]);
    PrintOne(r);
  }

  lemma PrintDelimited(field: nat, p: Bytes)
    ensures Print(Delimited(field, p)) == PrintTag(field, 2) + EncodeVarint(|p|) + p
  {
  }

  // ----- Scanning is insensitive to what follows -----

  lemma {:induction false} TagStable(s: Bytes, u: Bytes)
    requires TagAt(s).Got?
    ensures TagAt(s + u) == TagAt(s)
  {
    DecodeStable(s, u, MAX_VARINT);
  }

  lemma {:induction false} ValueStable(s: Bytes, u: Bytes, t: Tag)
    requires ValueAt(s, t).Got?
    ensures ValueAt(s + u, t) == ValueAt(s, t)
    decreases |s|, 1
  {
    match t.wire
    case 0 => DecodeStable(s, u, MAX_VARINT);
    case 1 => assert (s + u)[..8] == s[..8];
    case 2 =>
      DecodeStable(s, u, MAX_VARINT);
      var n, len := Varint32At(s).size, Varint32At(s).value;
      assert (s + u)[n..n + len] == s[n..n + len];
    case 3 => GroupStable(s, u, t.field);
    case 5 => assert (s + u)[..4] == s[..4];
    case _ =>
  }

  /** One record of a group, or its end. */
  lemma GroupStep(s: Bytes, field: nat)
    ensures GroupAt(s, field).Got? ==> TagAt(s).Got?
    ensures TagAt(s).Got? ==>
      var Got(t, n) := TagAt(s);
      if t.wire == 4 then GroupAt(s, field) == if t.field == field then Got([], n) else Bad
      else match ValueAt(s[n..], t)
        case Bad => GroupAt(s, field) == Bad
        case Got(r, k) => GroupAt(s, field) == match GroupAt(s[n + k..], field)
          case Bad => Bad
          case Got(rs, m) => Got([r] + rs, n + k + m)
  {
    hide ValueAt, TagAt;
  }

  lemma {:induction false} GroupStable(s: Bytes, u: Bytes, field: nat)
    requires GroupAt(s, field).Got?
    ensures GroupAt(s + u, field) == GroupAt(s, field)
    decreases |s|, 0
  {
    hide ValueAt, TagAt, GroupAt;
    GroupStep(s, field);
    TagStable(s, u);
    GroupStep(s + u, field);
    var Got(t, n) := TagAt(s);
    assert (s + u)[n..] == s[n..] + u;
    if t.wire != 4 {
      ValueStable(s[n..], u, t);
      var k := ValueAt(s[n..], t).size;
      assert (s + u)[n + k..] == s[n + k..] + u;
      GroupStable(s[n + k..], u, field);
    }
  }

  /** What is left of `s` when its first record is taken off. */
  lemma ScanStep(s: Bytes)
    requires s != [] && TagAt(s).Got? && TagAt(s).value.wire != 4
    requires ValueAt(s[TagAt(s).size..], TagAt(s).value).Got?
    ensures var n := TagAt(s).size;
      var v := ValueAt(s[n..], TagAt(s).value);
      Scan(s) == Prepend([v.value], Scan(s[n + v.size..]))
  {
    hide ValueAt, TagAt;
  }

  lemma WholeStep(s: Bytes)
    requires s != [] && Whole(s)
    ensures TagAt(s).Got? && TagAt(s).value.wire != 4 && ValueAt(s[TagAt(s).size..], TagAt(s).value).Got?
    ensures var n := TagAt(s).size;
      var Got(r, k) := ValueAt(s[n..], TagAt(s).value);
      Whole(s[n + k..]) && Scan(s).rs == [r] + Scan(s[n + k..]).rs
  {
    hide ValueAt, TagAt;
  }

  /** Scanning distributes over concatenation at a record boundary. */
  lemma {:induction false} ScanConcat(a: Bytes, b: Bytes)
    requires Whole(a)
    ensures Scan(a + b) == Prepend(Scan(a).rs, Scan(b))
    decreases |a|
  {
    hide ValueAt, TagAt, Scan;
    if a == [] {
      assert a + b == b;
      ScanNothing();
      PrependNothing(Scan(b));
    } else {
      WholeStep(a);
      var Got(t, n) := TagAt(a);
      var Got(r, k) := ValueAt(a[n..], t);
      TagStable(a, b);
      ValueStable(a[n..], b, t);
      var rest := a[n + k..];
      assert (a + b)[n..] == a[n..] + b && (a + b)[n + k..] == rest + b;
      ScanStep(a + b);
      assert Scan(a + b) == Prepend([r], Scan(rest + b));
      ScanConcat(rest, b);
      PrependTwice([r], Scan(rest).rs, Scan(b));
      assert Scan(a).rs == [r] + Scan(rest).rs;
    }
  }

  lemma ScanNothing()
    ensures Scan([]) == Records([], false) && forall f :: OfField([], f) == []
  {
  }

  /** Where a decoding loop stands after one more record. */
  lemma ScanProgress(input: Bytes, done: seq<Record>, rest: Bytes)
    requires Scan(input) == Prepend(done, Scan(rest))
    requires rest != [] && TagAt(rest).Got? && TagAt(rest).value.wire != 4
    requires ValueAt(rest[TagAt(rest).size..], TagAt(rest).value).Got?
    ensures var n := TagAt(rest).size;
      var Got(r, k) := ValueAt(rest[n..], TagAt(rest).value);
      Scan(input) == Prepend(done + [r], Scan(rest[n + k..]))
  {
    hide ValueAt, TagAt, Scan;
    ScanStep(rest);
    var n := TagAt(rest).size;
    var Got(r, k) := ValueAt(rest[n..], TagAt(rest).value);
    PrependTwice(done, [r], Scan(rest[n + k..]));
  }

  /** Where it stops: at the end of the message or at a stray end-group tag. */
  lemma ScanEnds(input: Bytes, done: seq<Record>, rest: Bytes)
    requires Scan(input) == Prepend(done, Scan(rest))
    requires rest == [] || (TagAt(rest).Got? && TagAt(rest).value.wire == 4)
    ensures Scan(input) == Records(done, rest != [])
  {
    hide ValueAt, TagAt;
    assert Scan(rest) == Records([], rest != []);
    assert done + [] == done;
  }

  /** Where it fails: at a record whose value cannot be read. */
  lemma ScanFails(input: Bytes, done: seq<Record>, rest: Bytes)
    requires Scan(input) == Prepend(done, Scan(rest))
    requires rest != [] && TagAt(rest).Got? && TagAt(rest).value.wire != 4
    requires ValueAt(rest[TagAt(rest).size..], TagAt(rest).value).Bad?
    ensures Scan(input).Malformed?
  {
    hide ValueAt, TagAt;
    assert Scan(rest).Malformed?;
  }

  lemma PrependNothing(x: Scanned)
    ensures Prepend([], x) == x
  {
    if x.Records? {
      assert [] + x.rs == x.rs;
    }
  }

  lemma PrependTwice(p: seq<Record>, q: seq<Record>, x: Scanned)
    ensures Prepend(p, Prepend(q, x)) == Prepend(p + q, x)
  {
    if x.Records? {
      assert p + (q + x.rs) == (p + q) + x.rs;
    }
  }

  lemma SliceOfSlice<T>(s: seq<T>, i: nat, j: nat, k: nat, l: nat)
    requires i <= j <= |s| && k <= l <= j - i
    ensures s[i..j][k..l] == s[i + k..i + l]
  {
    var p, q := s[i..j][k..l], s[i + k..i + l];
    assert forall x | 0 <= x < l - k :: p[x] == q[x];
  }

  // ----- Scanning undoes printing -----

  lemma TagPrinted(field: nat, wire: nat, s: Bytes)
    requires field < 0x2000_0000 && wire < 8
    ensures TagAt(PrintTag(field, wire) + s) == Got(Tag(field, wire), |PrintTag(field, wire)|)
  {
    hide EncodeVarint;
    VarintRoundTrip(8 * field + wire, s);
    assert (8 * field + wire) / 8 == field && (8 * field + wire) % 8 == wire;
  }

  lemma {:induction false} ValuePrinted(r: Record)
    requires WellFormed(r)
    ensures ValueAt(PrintValue(r), Tag(r.field, WireType(r))) == Got(r, |PrintValue(r)|)
    decreases r, 0
  {
    var s := PrintValue(r);
    match r
    case Varint(_, v) =>
      VarintRoundTrip(v, []);
      assert s + [] == s;
    case Fixed64(_, raw) => assert raw[..8] == raw;
    case Delimited(_, p) =>
      VarintRoundTrip(|p|, p);
      assert s[|EncodeVarint(|p|)|..|s|] == p;
    case Group(f, body) => GroupPrinted(body, f);
    case Fixed32(_, raw) => assert raw[..4] == raw;
  }

  /** The first record of a printed sequence is read back, whatever follows it. */
  lemma {:induction false} RecordPrinted(r: Record, rest: Bytes)
    requires WellFormed(r)
    ensures var s, n := Print(r) + rest, |PrintTag(r.field, WireType(r))|;
      && n <= |Print(r)|
      && TagAt(s) == Got(Tag(r.field, WireType(r)), n)
      && ValueAt(s[n..], Tag(r.field, WireType(r))) == Got(r, |Print(r)| - n)
    decreases r, 1
  {
    hide ValueAt, TagAt, PrintValue;
    var tag := PrintTag(r.field, WireType(r));
    assert Print(r) + rest == tag + (PrintValue(r) + rest);
    TagPrinted(r.field, WireType(r), PrintValue(r) + rest);
    assert (Print(r) + rest)[|tag|..] == PrintValue(r) + rest;
    ValuePrinted(r);
    ValueStable(PrintValue(r), rest, Tag(r.field, WireType(r)));
  }

  lemma {:induction false} GroupPrinted(rs: seq<Record>, field: nat)
    requires field < 0x2000_0000 && forall r <- rs :: WellFormed(r)
    ensures var s := PrintAll(rs) + PrintTag(field, 4);
      GroupAt(s, field) == Got(rs, |s|)
    decreases rs
  {
    hide ValueAt, TagAt, Print;
    var end := PrintTag(field, 4);
    var s := PrintAll(rs) + end;
    if rs == [] {
      TagPrinted(field, 4, []);
      assert s == end + [];
    } else {
      assert rs[0] in rs;
      var r, rest := rs[0], PrintAll(rs[1..]) + end;
      assert s == Print(r) + rest;
      RecordPrinted(r, rest);
      assert s[|Print(r)|..] == rest;
      GroupPrinted(rs[1..], field);
      assert rs == [r] + rs[1..];
    }
  }

  /** Scanning undoes printing, for every sequence of well-formed records of every wire type. */
  lemma {:induction false} ScanPrinted(rs: seq<Record>)
    requires forall r <- rs :: WellFormed(r)
    ensures Scan(PrintAll(rs)) == Records(rs, false)
  {
    hide ValueAt, TagAt, Print;
    if rs != [] {
      assert rs[0] in rs;
      var r, rest := rs[0], PrintAll(rs[1..]);
      RecordPrinted(r, rest);
      assert PrintAll(rs)[|Print(r)|..] == rest;
      ScanPrinted(rs[1..]);
      assert rs == [r] + rs[1..];
    }
  }

  // ----- Fields of a message -----

  /** The records of one field, in order: all that a field's value may depend on. */
  function OfField(rs: seq<Record>, field: nat): seq<Record> {
    if rs == [] then []
    else (if rs[0].field == field then [rs[0]] else []) + OfField(rs[1..], field)
  }

  lemma {:induction false} OfFieldIn(rs: seq<Record>, field: nat)
    ensures forall q <- OfField(rs, field) :: q in rs && q.field == field
  {
    if rs != [] {
      OfFieldIn(rs[1..], field);
    }
  }

  lemma {:induction false} OfFieldConcat(a: seq<Record>, b: seq<Record>, field: nat)
    ensures OfField(a + b, field) == OfField(a, field) + OfField(b, field)
  {
    hide OfField;
    if a == [] {
      OfFieldStep(a, field);
      assert a + b == b;
    } else {
      OfFieldConcat(a[1..], b, field);
      OfFieldStep(a, field);
      OfFieldStep(a + b, field);
      assert (a + b)[0] == a[0] && (a + b)[1..] == a[1..] + b;
      var first := if a[0].field == field then [a[0]] else [];
      assert first + (OfField(a[1..], field) + OfField(b, field))
          == (first + OfField(a[1..], field)) + OfField(b, field);
    }
  }

  lemma OfFieldStep(rs: seq<Record>, field: nat)
    ensures OfField(rs, field) == if rs == [] then []
      else (if rs[0].field == field then [rs[0]] else []) + OfField(rs[1..], field)
  {
  }

  lemma {:induction false} ElementsOfField(field: nat, ps: seq<Bytes>)
    ensures forall f | f != field :: OfField(Elements(field, ps), f) == []
    ensures OfField(Elements(field, ps), field) == Elements(field, ps)
  {
    if ps != [] {
      ElementsOfField(field, ps[1..]);
      assert Elements(field, ps)[1..] == Elements(field, ps[1..]);
    }
  }

  lemma OfFieldThree(a: seq<Record>, b: seq<Record>, c: seq<Record>, f: nat)
    ensures OfField(a + b + c, f) == OfField(a, f) + OfField(b, f) + OfField(c, f)
  {
    OfFieldConcat(a + b, c, f);
    OfFieldConcat(a, b, f);
  }

  lemma HeadRecords(rs: seq<Record>, field: nat)
    requires rs == [] || (|rs| == 1 && rs[0].field == field)
    ensures OfField(rs, field) == rs
    ensures forall f | f != field :: OfField(rs, f) == []
  {
    if rs != [] {
      assert rs == [rs[0]] && rs[1..] == [];
    }
  }

  predicate Delimiteds(qs: seq<Record>) {
    forall q <- qs :: q.Delimited?
  }

  predicate Varints(qs: seq<Record>) {
    forall q <- qs :: q.Varint?
  }

  lemma InPieces(a: seq<Record>, b: seq<Record>)
    ensures Delimiteds(a + b) <==> Delimiteds(a) && Delimiteds(b)
    ensures Varints(a + b) <==> Varints(a) && Varints(b)
  {
    assert forall q :: q in a + b <==> q in a || q in b;
  }

  /** "Last One Wins": the payload a singular field ends up with, `d` when it never occurs. */
  function LastPayload(qs: seq<Record>, d: Bytes): Bytes
    requires Delimiteds(qs)
  {
    if qs == [] then d else qs[|qs| - 1].payload
  }

  /** The payloads of a repeated field, in order. */
  function Payloads(qs: seq<Record>): (ps: seq<Bytes>)
    requires Delimiteds(qs)
    ensures |ps| == |qs| && forall i | 0 <= i < |qs| :: ps[i] == qs[i].payload
  {
    seq(|qs|, i requires 0 <= i < |qs| => qs[i].payload)
  }

  // ----- A measure for nested messages -----

  function Weight(rs: seq<Record>): nat {
    if rs == [] then 0
    else 1 + (if rs[0].Delimited? then |rs[0].payload| else 0) + Weight(rs[1..])
  }

  lemma {:induction false} ScanWeight(s: Bytes)
    requires Scan(s).Records?
    ensures Weight(Scan(s).rs) <= |s|
    decreases |s|
  {
    if s != [] && TagAt(s).value.wire != 4 {
      var Got(t, n) := TagAt(s);
      var Got(r, k) := ValueAt(s[n..], t);
      ScanWeight(s[n + k..]);
      assert Scan(s).rs[1..] == Scan(s[n + k..]).rs;
    }
  }

  lemma {:induction false} OfFieldWeight(rs: seq<Record>, field: nat)
    ensures Weight(OfField(rs, field)) <= Weight(rs)
  {
    if rs != [] {
      OfFieldWeight(rs[1..], field);
      var qs := OfField(rs, field);
      if rs[0].field == field {
        assert qs[0] == rs[0] && qs[1..] == OfField(rs[1..], field);
      } else {
        assert qs == OfField(rs[1..], field);
      }
    }
  }

  // ----- Decoding a message, whatever its fields -----

  /** What `m` becomes when the bytes `s` are decoded into it; None if that throws. */
  function DecodeInto<M>(interpret: (M, seq<Record>) -> Option<M>, m: M, s: Bytes): Option<M> {
    match Scan(s)
    case Malformed => None
    case Records(rs, _) => interpret(m, rs)
  }

  /** Interpreting `b` in what is left of interpreting its predecessors. */
  function Then<M>(interpret: (M, seq<Record>) -> Option<M>, r: Option<M>, b: seq<Record>): Option<M> {
    match r
    case None => None
    case Some(u) => interpret(u, b)
  }

  ghost predicate Distributes<M(!new)>(interpret: (M, seq<Record>) -> Option<M>) {
    forall m, a, b :: interpret(m, a + b) == Then(interpret, interpret(m, a), b)
  }

  /** Decoding `a + b` is decoding `a`, then `b` into what `a` left. */
  lemma DecodeConcat<M(!new)>(interpret: (M, seq<Record>) -> Option<M>, m: M, a: Bytes, b: Bytes)
    requires Distributes(interpret) && Whole(a)
    ensures DecodeInto(interpret, m, a + b) == match DecodeInto(interpret, m, a)
      case None => None
      case Some(u) => DecodeInto(interpret, u, b)
  {
    hide Scan;
    ScanConcat(a, b);
    if Scan(b).Records? {
      assert interpret(m, Scan(a).rs + Scan(b).rs) == Then(interpret, interpret(m, Scan(a).rs), Scan(b).rs);
    }
  }

  /** What one record of the input does to the meaning of all of it. */
  lemma DecodeStep<M(!new)>(interpret: (M, seq<Record>) -> Option<M>, m: M,
                            input: Bytes, done: seq<Record>, rest: Bytes, u: M)
    requires Distributes(interpret)
    requires Scan(input) == Prepend(done, Scan(rest)) && interpret(m, done) == Some(u)
    requires rest != [] && TagAt(rest).Got? && TagAt(rest).value.wire != 4
    requires ValueAt(rest[TagAt(rest).size..], TagAt(rest).value).Got?
    ensures var n := TagAt(rest).size;
      var Got(r, k) := ValueAt(rest[n..], TagAt(rest).value);
      && Scan(input) == Prepend(done + [r], Scan(rest[n + k..]))
      && interpret(m, done + [r]) == interpret(u, [r])
      && (interpret(u, [r]).None? ==> DecodeInto(interpret, m, input).None?)
  {
    hide ValueAt, TagAt, Scan;
    var n := TagAt(rest).size;
    var Got(r, k) := ValueAt(rest[n..], TagAt(rest).value);
    var tail := Scan(rest[n + k..]);
    ScanProgress(input, done, rest);
    assert interpret(m, done + [r]) == Then(interpret, interpret(m, done), [r]);
    if tail.Records? {
      assert interpret(m, (done + [r]) + tail.rs) == Then(interpret, interpret(m, done + [r]), tail.rs);
    }
  }
}
