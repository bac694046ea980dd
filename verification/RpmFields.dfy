/** What the bytes of an `RPM` message mean: sixteen fields, each read off its own records alone. */
module RpmFields {
  import opened Wrappers
  import opened Wire
  import opened JsNumber

  datatype Package = Package(
    name: Bytes, version: Bytes, release: Bytes, architecture: Bytes, distribution: Bytes,
    groups: seq<Bytes>, size: nat, license: Bytes, source: seq<Bytes>, buildTime: Bytes,
    buildHost: Bytes, vendor: Bytes, packager: Bytes, url: Bytes, summary: Bytes, description: Bytes)

  const BLANK: Package := Package([], [], [], [], [], [], 0, [], [], [], [], [], [], [], [], [])

  // ----- Meaning -----

  predicate Typed(r: Record) {
    && (r.field == 7 ==> r.Varint?)
    && (1 <= r.field <= 16 && r.field != 7 ==> r.Delimited?)
  }

  lemma TypedOf(rs: seq<Record>, field: nat)
    requires 1 <= field <= 16 && forall r <- rs :: Typed(r)
    ensures if field == 7 then Varints(OfField(rs, field)) else Delimiteds(OfField(rs, field))
  {
    OfFieldIn(rs, field);
    forall q <- OfField(rs, field) ensures Typed(q) && q.field == field {
      assert q in rs;
    }
  }

  /** The value of a string field after `rs`, when it was `d` before. */
  function Str(rs: seq<Record>, field: nat, d: Bytes): Bytes
    requires 1 <= field <= 16 && field != 7 && forall r <- rs :: Typed(r)
  {
    TypedOf(rs, field);
    LastPayload(OfField(rs, field), d)
  }

  /** The elements that `rs` adds to a repeated field. */
  function All(rs: seq<Record>, field: nat): seq<Bytes>
    requires 1 <= field <= 16 && field != 7 && forall r <- rs :: Typed(r)
  {
    TypedOf(rs, field);
    Payloads(OfField(rs, field))
  }

  /** The last size that `rs` sends, as it stands on the wire. */
  function SentSize(rs: seq<Record>): Option<nat>
    requires forall r <- rs :: Typed(r)
  {
    TypedOf(rs, 7);
    var qs := OfField(rs, 7);
    if qs == [] then None else Some(qs[|qs| - 1].value)
  }

  /** The size after `rs`: the last one sent, as a JavaScript number. */
  function Size(rs: seq<Record>, d: nat): nat
    requires forall r <- rs :: Typed(r)
  {
    match SentSize(rs)
    case None => d
    case Some(v) => ToNumber(v)
  }

  function Interpret(m: Package, rs: seq<Record>): Option<Package> {
    if !forall r <- rs :: Typed(r) then None
    else Some(Package(
                Str(rs, 1, m.name), Str(rs, 2, m.version), Str(rs, 3, m.release), Str(rs, 4, m.architecture),
                Str(rs, 5, m.distribution), m.groups + All(rs, 6), Size(rs, m.size), Str(rs, 8, m.license),
                m.source + All(rs, 9), Str(rs, 10, m.buildTime), Str(rs, 11, m.buildHost), Str(rs, 12, m.vendor),
                Str(rs, 13, m.packager), Str(rs, 14, m.url), Str(rs, 15, m.summary), Str(rs, 16, m.description)))
  }

  function Decode(s: Bytes): Option<Package> {
    DecodeInto(Interpret, BLANK, s)
  }

  // ----- Concatenation -----

  lemma StrConcat(a: seq<Record>, b: seq<Record>, f: nat, d: Bytes)
    requires 1 <= f <= 16 && f != 7 && (forall r <- a :: Typed(r)) && (forall r <- b :: Typed(r))
    ensures forall r <- a + b :: Typed(r)
    ensures Str(a + b, f, d) == Str(b, f, Str(a, f, d))
  {
    hide OfField;
    OfFieldConcat(a, b, f);
  }

  lemma AllConcat(a: seq<Record>, b: seq<Record>, f: nat)
    requires 1 <= f <= 16 && f != 7 && (forall r <- a :: Typed(r)) && (forall r <- b :: Typed(r))
    ensures forall r <- a + b :: Typed(r)
    ensures All(a + b, f) == All(a, f) + All(b, f)
  {
    hide OfField;
    OfFieldConcat(a, b, f);
  }

  lemma SizeConcat(a: seq<Record>, b: seq<Record>, d: nat)
    requires (forall r <- a :: Typed(r)) && (forall r <- b :: Typed(r))
    ensures forall r <- a + b :: Typed(r)
    ensures Size(a + b, d) == Size(b, Size(a, d))
  {
    hide OfField;
    OfFieldConcat(a, b, 7);
  }

  /** Decoding `a + b` is decoding `a`, then `b` into what `a` left. */
  lemma InterpretConcat(m: Package, a: seq<Record>, b: seq<Record>)
    ensures Interpret(m, a + b) == match Interpret(m, a)
      case None => None
      case Some(u) => Interpret(u, b)
  {
    hide Str, All, Size, Typed;
    assert forall r :: r in a + b <==> r in a || r in b;
    if (forall r <- a :: Typed(r)) && (forall r <- b :: Typed(r)) {
      forall f: nat, d: Bytes | 1 <= f <= 16 && f != 7 ensures Str(a + b, f, d) == Str(b, f, Str(a, f, d)) {
        StrConcat(a, b, f, d);
      }
      AllConcat(a, b, 6);
      AllConcat(a, b, 9);
      SizeConcat(a, b, m.size);
      assert m.groups + (All(a, 6) + All(b, 6)) == (m.groups + All(a, 6)) + All(b, 6);
      assert m.source + (All(a, 9) + All(b, 9)) == (m.source + All(a, 9)) + All(b, 9);
    }
  }

  lemma InterpretDistributes()
    ensures Distributes(Interpret)
  {
    hide Interpret;
    forall m, a, b ensures Interpret(m, a + b) == Then(Interpret, Interpret(m, a), b) {
      InterpretConcat(m, a, b);
    }
  }

  // ----- One record -----

  /** The string fields by number. */
  function StrOf(m: Package, field: nat): Bytes {
    match field
    case 1 => m.name
    case 2 => m.version
    case 3 => m.release
    case 4 => m.architecture
    case 5 => m.distribution
    case 8 => m.license
    case 10 => m.buildTime
    case 11 => m.buildHost
    case 12 => m.vendor
    case 13 => m.packager
    case 14 => m.url
    case 15 => m.summary
    case 16 => m.description
    case _ => []
  }

  predicate Singular(field: nat) {
    1 <= field <= 16 && field != 6 && field != 7 && field != 9
  }

  /** Two packages are equal when they agree field by field. */
  lemma SameFieldByField(m: Package, k: Package)
    requires forall f | Singular(f) :: StrOf(m, f) == StrOf(k, f)
    requires m.groups == k.groups && m.size == k.size && m.source == k.source
    ensures m == k
  {
    assert StrOf(m, 1) == StrOf(k, 1) && StrOf(m, 2) == StrOf(k, 2) && StrOf(m, 3) == StrOf(k, 3);
    assert StrOf(m, 4) == StrOf(k, 4) && StrOf(m, 5) == StrOf(k, 5) && StrOf(m, 8) == StrOf(k, 8);
    assert StrOf(m, 10) == StrOf(k, 10) && StrOf(m, 11) == StrOf(k, 11) && StrOf(m, 12) == StrOf(k, 12);
    assert StrOf(m, 13) == StrOf(k, 13) && StrOf(m, 14) == StrOf(k, 14) && StrOf(m, 15) == StrOf(k, 15);
    assert StrOf(m, 16) == StrOf(k, 16);
  }

  /** Each field of the result depends on the records of that field only. */
  lemma InterpretByField(m: Package, rs: seq<Record>)
    requires forall r <- rs :: Typed(r)
    ensures Interpret(m, rs).Some?
    ensures var k := Interpret(m, rs).value;
      && (forall f | Singular(f) :: StrOf(k, f) == Str(rs, f, StrOf(m, f)))
      && k.groups == m.groups + All(rs, 6) && k.source == m.source + All(rs, 9) && k.size == Size(rs, m.size)
  {
    hide Str, All, Size, Typed;
  }

  lemma OneRecord(r: Record)
    requires Typed(r)
    ensures forall f: nat, d: Bytes | 1 <= f <= 16 && f != 7 :: Str([r], f, d) == if r.field == f then r.payload else d
    ensures forall f: nat | 1 <= f <= 16 && f != 7 :: All([r], f) == if r.field == f then [r.payload] else []
    ensures forall n: nat :: Size([r], n) == if r.field == 7 then ToNumber(r.value) else n
  {
    hide ToNumber;
    HeadRecords([r], r.field);
  }

  lemma InterpretNothing(m: Package)
    ensures Interpret(m, []) == Some(m)
  {
    ScanNothing();
    hide OfField;
    assert m.groups + [] == m.groups && m.source + [] == m.source;
  }

  /** One record's effect: the `switch` of the decoder. */
  lemma InterpretOne(m: Package, r: Record)
    ensures Interpret(m, [r]) ==
      if !Typed(r) then None
      else match r.field
        case 1 => Some(m.(name := r.payload))
        case 2 => Some(m.(version := r.payload))
        case 3 => Some(m.(release := r.payload))
        case 4 => Some(m.(architecture := r.payload))
        case 5 => Some(m.(distribution := r.payload))
        case 6 => Some(m.(groups := m.groups + [r.payload]))
        case 7 => Some(m.(size := ToNumber(r.value)))
        case 8 => Some(m.(license := r.payload))
        case 9 => Some(m.(source := m.source + [r.payload]))
        case 10 => Some(m.(buildTime := r.payload))
        case 11 => Some(m.(buildHost := r.payload))
        case 12 => Some(m.(vendor := r.payload))
        case 13 => Some(m.(packager := r.payload))
        case 14 => Some(m.(url := r.payload))
        case 15 => Some(m.(summary := r.payload))
        case 16 => Some(m.(description := r.payload))
        case _ => Some(m)
  {
    assert [r][0] == r;
    if Typed(r) {
      OneRecord(r);
      hide Str, All, Size, ToNumber, Typed;
      assert m.groups + [] == m.groups && m.source + [] == m.source;
    }
  }

  // ----- The canonical encoding -----

  /** The records `serialize` writes for one field: none for a default value. */
  function FieldRecords(m: Package, field: nat): seq<Record> {
    match field
    case 6 => Elements(6, m.groups)
    case 7 => if m.size != 0 then [Varint(7, m.size)] else []
    case 9 => Elements(9, m.source)
    case _ => Optional(field, StrOf(m, field))
  }

  function Optional(field: nat, value: Bytes): seq<Record> {
    if |value| > 0 then [Delimited(field, value)] else []
  }

  /** The records of fields 1 to `field`, in the order of their numbers. */
  function RecordsUpTo(m: Package, field: nat): seq<Record> {
    if field == 0 then [] else RecordsUpTo(m, field - 1) + FieldRecords(m, field)
  }

  function Encode(m: Package): Bytes {
    PrintAll(RecordsUpTo(m, 16))
  }

  /** Every length is below 2^32 and the size below 2^64. */
  predicate Fits(m: Package) {
    forall f | 1 <= f <= 16 :: FieldFits(m, f)
  }

  predicate FieldFits(m: Package, field: nat) {
    match field
    case 6 => forall v <- m.groups :: |v| < TWO_TO_THE_32
    case 7 => m.size < TWO_TO_THE_64
    case 9 => forall v <- m.source :: |v| < TWO_TO_THE_32
    case _ => |StrOf(m, field)| < TWO_TO_THE_32
  }

  lemma WrittenUpTo(m: Package, field: nat)
    requires field > 0
    ensures PrintAll(RecordsUpTo(m, field)) == PrintAll(RecordsUpTo(m, field - 1)) + PrintAll(FieldRecords(m, field))
  {
    hide FieldRecords;
    PrintAllConcat(RecordsUpTo(m, field - 1), FieldRecords(m, field));
  }

  lemma NothingWritten(m: Package)
    ensures PrintAll(RecordsUpTo(m, 0)) == []
  {
  }

  lemma AllFit(m: Package)
    ensures Fits(m) <==>
      && FieldFits(m, 1) && FieldFits(m, 2) && FieldFits(m, 3) && FieldFits(m, 4) && FieldFits(m, 5)
      && FieldFits(m, 6) && FieldFits(m, 7) && FieldFits(m, 8) && FieldFits(m, 9) && FieldFits(m, 10)
      && FieldFits(m, 11) && FieldFits(m, 12) && FieldFits(m, 13) && FieldFits(m, 14) && FieldFits(m, 15)
      && FieldFits(m, 16)
  {
    hide FieldFits;
  }

  // ----- Every conforming encoder is undone -----

  /**
   * Well-formed records that carry `m`: the last one of every singular field wins, an absent one
   * stands for the default, and repeated fields list their elements in order. Fields may be sent
   * more than once, interleaved, in any order, and among fields the schema does not know.
   */
  ghost predicate Carries(rs: seq<Record>, m: Package) {
    && (forall r <- rs :: WellFormed(r) && Typed(r))
    && (forall f | Singular(f) :: Str(rs, f, []) == StrOf(m, f))
    && All(rs, 6) == m.groups && All(rs, 9) == m.source
    && m.size == (match SentSize(rs) case None => 0 case Some(v) => v)
  }

  lemma FieldRecordsOf(m: Package, field: nat, f: nat)
    ensures OfField(FieldRecords(m, field), f) == if f == field then FieldRecords(m, field) else []
  {
    match field {
      case 6 => ElementsOfField(6, m.groups);
      case 7 => HeadRecords(FieldRecords(m, 7), 7);
      case 9 => ElementsOfField(9, m.source);
      case _ => HeadRecords(FieldRecords(m, field), field);
    }
  }

  lemma {:induction false} UpToOf(m: Package, k: nat, f: nat)
    requires f > 0
    ensures OfField(RecordsUpTo(m, k), f) == if f <= k then FieldRecords(m, f) else []
    decreases k
  {
    hide FieldRecords;
    if k > 0 {
      UpToOf(m, k - 1, f);
      FieldRecordsOf(m, k, f);
      OfFieldConcat(RecordsUpTo(m, k - 1), FieldRecords(m, k), f);
    }
  }

  predicate InFieldOrder(rs: seq<Record>) {
    forall i, j | 0 <= i < j < |rs| :: rs[i].field <= rs[j].field
  }

  /** The fields are written in the order of their numbers. */
  lemma {:induction false} FieldsInOrder(m: Package, k: nat)
    ensures forall r <- RecordsUpTo(m, k) :: 1 <= r.field <= k
    ensures InFieldOrder(RecordsUpTo(m, k))
  {
    if k > 0 {
      FieldsInOrder(m, k - 1);
      OneField(m, k);
      OrderedConcat(RecordsUpTo(m, k - 1), FieldRecords(m, k), k);
    }
  }

  lemma OrderedConcat(a: seq<Record>, b: seq<Record>, k: nat)
    requires InFieldOrder(a) && (forall r <- a :: r.field < k) && forall r <- b :: r.field == k
    ensures InFieldOrder(a + b) && forall r <- a + b :: r in a || r in b
  {
    assert forall i | 0 <= i < |a| :: a[i] in a;
    assert forall i | 0 <= i < |b| :: b[i] in b;
  }

  lemma OneField(m: Package, k: nat)
    requires k > 0
    ensures forall r <- FieldRecords(m, k) :: r.field == k
  {
  }

  lemma {:induction false} UpToWellFormed(m: Package, k: nat)
    requires k <= 16 && forall f | 1 <= f <= k :: FieldFits(m, f)
    ensures forall r <- RecordsUpTo(m, k) :: WellFormed(r)
  {
    if k > 0 {
      UpToWellFormed(m, k - 1);
      assert FieldFits(m, k);
    }
  }

  lemma {:induction false} UpToTyped(m: Package, k: nat)
    requires k <= 16
    ensures forall r <- RecordsUpTo(m, k) :: Typed(r)
  {
    if k > 0 {
      UpToTyped(m, k - 1);
    }
  }

  /** What `serialize` writes carries the package. */
  lemma EncodeCarries(m: Package)
    requires Fits(m)
    ensures Carries(RecordsUpTo(m, 16), m)
  {
    hide RecordsUpTo, OfField, WellFormed, Fits;
    var rs := RecordsUpTo(m, 16);
    AllWellFormed(m);
    UpToTyped(m, 16);
    forall f | Singular(f) ensures Str(rs, f, []) == StrOf(m, f) {
      UpToOf(m, 16, f);
    }
    UpToOf(m, 16, 6);
    UpToOf(m, 16, 7);
    UpToOf(m, 16, 9);
  }

  lemma AllWellFormed(m: Package)
    requires Fits(m)
    ensures forall r <- RecordsUpTo(m, 16) :: WellFormed(r)
  {
    UpToWellFormed(m, 16);
  }

  /** Decoding yields what was encoded, all sixteen fields; only the size goes through a `number`. */
  lemma DecodeCarries(rs: seq<Record>, m: Package)
    requires Carries(rs, m)
    ensures Decode(PrintAll(rs)) == Some(m.(size := ToNumber(m.size)))
  {
    hide OfField, PrintAll, Interpret, ToNumber, WellFormed, Scan, Str, All, SentSize;
    ScanPrinted(rs);
    InterpretByField(BLANK, rs);
    var k := Interpret(BLANK, rs).value;
    assert forall f | Singular(f) :: StrOf(k, f) == StrOf(m, f);
    NumberExact(0);
    SameFieldByField(m.(size := ToNumber(m.size)), k);
  }

  /**
   * Round trip, for every package that `serialize` accepts: it returns unchanged exactly when its
   * size is representable as a double, in particular for every size below 2^53.
   */
  lemma RoundTrip(m: Package)
    requires Fits(m)
    ensures Decode(Encode(m)) == Some(m.(size := ToNumber(m.size)))
    ensures Decode(Encode(m)) == Some(m) <==> m.size % Ulp(m.size) == 0
    ensures m.size < TWO_TO_THE_53 ==> Decode(Encode(m)) == Some(m)
  {
    hide RecordsUpTo, ToNumber, Decode, PrintAll, Fits;
    EncodeCarries(m);
    DecodeCarries(RecordsUpTo(m, 16), m);
    NumberExact(m.size);
  }

  /** The decoder does not see the order between fields, nor unknown fields. */
  lemma SameFieldsDecode(m: Package, a: Bytes, b: Bytes)
    requires Scan(a).Records? && Scan(b).Records?
    requires forall f | 1 <= f <= 16 :: OfField(Scan(a).rs, f) == OfField(Scan(b).rs, f)
    ensures DecodeInto(Interpret, m, a) == DecodeInto(Interpret, m, b)
  {
    hide OfField, Scan, ToNumber;
    var p, q := Scan(a).rs, Scan(b).rs;
    TypedSame(p, q);
    TypedSame(q, p);
    assert (forall r <- p :: Typed(r)) <==> (forall r <- q :: Typed(r));
  }

  lemma {:induction false} TypedByField(rs: seq<Record>, f: nat)
    ensures forall r <- rs | r.field == f :: r in OfField(rs, f)
  {
    if rs != [] {
      TypedByField(rs[1..], f);
    }
  }

  lemma TypedSame(p: seq<Record>, q: seq<Record>)
    requires forall f | 1 <= f <= 16 :: OfField(p, f) == OfField(q, f)
    ensures (forall r <- p :: Typed(r)) ==> forall r <- q :: Typed(r)
  {
    forall r <- q | (forall x <- p :: Typed(x)) && 1 <= r.field <= 16 ensures Typed(r) {
      TypedByField(q, r.field);
      OfFieldIn(p, r.field);
      assert r in p;
    }
  }
}
