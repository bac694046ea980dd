/**
 * Reading a package and writing it back: when the size that came out as a `number` still fits the
 * wire, how long the result is, and that a second pass changes nothing.
 */
module RpmNormalForm {
  import opened Wrappers
  import opened Wire
  import opened JsNumber
  import opened RpmFields
  import opened ShortForm

  /** The last size record of the bytes, 0 when there is none. */
  function WireSize(s: Bytes): nat
    requires Decode(s).Some?
  {
    match SentSize(Scan(s).rs)
    case None => 0
    case Some(v) => v
  }

  /** One byte more when rounding makes the size's varint longer. */
  function Growth(s: Bytes): (g: nat)
    requires Decode(s).Some?
    ensures g <= 1
  {
    if |EncodeVarint(ToNumber(WireSize(s)))| > |EncodeVarint(WireSize(s))| then 1 else 0
  }

  lemma SizeGrowth(v: nat)
    ensures |EncodeVarint(ToNumber(v))| <= |EncodeVarint(v)| + 1
  {
    hide ToNumber;
    if v == 0 {
      NumberExact(0);
    } else {
      hide Ulp;
      NumberNear(v);
      UlpBounds(v);
      UlpSmall(v);
      VarintMonotone(ToNumber(v), 128 * v);
      assert EncodeVarint(128 * v)[1..] == EncodeVarint(v);
    }
  }

  // ----- Field by field -----

  lemma DecodedFields(s: Bytes)
    requires Decode(s).Some?
    ensures Scan(s).Records? && forall r <- Scan(s).rs :: Typed(r)
    ensures var m, rs := Decode(s).value, Scan(s).rs;
      && (forall f | Singular(f) :: StrOf(m, f) == Str(rs, f, []))
      && m.groups == All(rs, 6) && m.source == All(rs, 9) && m.size == ToNumber(WireSize(s))
  {
    hide Scan, OfField, ToNumber, Str, All, Typed, SentSize, Interpret;
    var rs := Scan(s).rs;
    TypedWhenDecoded(rs);
    InterpretByField(BLANK, rs);
    NumberExact(0);
    assert [] + All(rs, 6) == All(rs, 6) && [] + All(rs, 9) == All(rs, 9);
  }

  lemma TypedWhenDecoded(rs: seq<Record>)
    requires Interpret(BLANK, rs).Some?
    ensures forall r <- rs :: Typed(r)
  {
    hide Str, All, Size, Typed;
  }

  lemma StringNotLonger(rs: seq<Record>, f: nat, m: Package)
    requires Singular(f) && (forall r <- rs :: Typed(r)) && StrOf(m, f) == Str(rs, f, [])
    ensures |PrintAll(FieldRecords(m, f))| <= |PrintAll(OfField(rs, f))|
    ensures StrOf(m, f) == [] || |StrOf(m, f)| < |PrintAll(OfField(rs, f))|
  {
    hide OfField, Print, Typed;
    var qs := OfField(rs, f);
    TypedOf(rs, f);
    OfFieldIn(rs, f);
    if qs != [] {
      MemberNotLonger(qs, qs[|qs| - 1]);
      PrintDelimited(f, StrOf(m, f));
      PrintOne(Delimited(f, StrOf(m, f)));
    }
  }

  lemma ListNotLonger(rs: seq<Record>, f: nat)
    requires (f == 6 || f == 9) && forall r <- rs :: Typed(r)
    ensures Elements(f, All(rs, f)) == OfField(rs, f)
    ensures forall v <- All(rs, f) :: |v| < |PrintAll(OfField(rs, f))|
  {
    hide OfField, Print, Typed;
    var qs := OfField(rs, f);
    TypedOf(rs, f);
    OfFieldIn(rs, f);
    assert forall i | 0 <= i < |qs| :: qs[i] in qs;
    forall v <- All(rs, f) ensures |v| < |PrintAll(qs)| {
      var i :| 0 <= i < |qs| && qs[i].payload == v;
      MemberNotLonger(qs, qs[i]);
      PrintDelimited(f, v);
    }
  }

  lemma SizeNotLonger(s: Bytes)
    requires Decode(s).Some?
    ensures |PrintAll(FieldRecords(Decode(s).value, 7))| <= |PrintAll(OfField(Scan(s).rs, 7))| + Growth(s)
  {
    hide Scan, OfField, ToNumber, Print, Typed;
    DecodedFields(s);
    var rs, m := Scan(s).rs, Decode(s).value;
    var qs := OfField(rs, 7);
    TypedOf(rs, 7);
    OfFieldIn(rs, 7);
    NumberExact(0);
    SizeGrowth(WireSize(s));
    if qs != [] {
      var q := qs[|qs| - 1];
      assert q in qs;
      MemberNotLonger(qs, q);
      PrintVarint(q.value);
      PrintVarint(m.size);
      PrintOne(Varint(7, m.size));
    }
  }

  lemma PrintVarint(v: nat)
    ensures |Print(Varint(7, v))| == |PrintTag(7, 0)| + |EncodeVarint(v)|
  {
  }

  lemma FieldNotLonger(s: Bytes, f: nat)
    requires Decode(s).Some? && 1 <= f <= 16
    ensures |PrintAll(FieldRecords(Decode(s).value, f))| <=
      |PrintAll(OfField(Scan(s).rs, f))| + if f == 7 then Growth(s) else 0
  {
    hide Scan, OfField, ToNumber, Print, PrintAll, Typed, Str, All, Decode;
    DecodedFields(s);
    var rs, m := Scan(s).rs, Decode(s).value;
    if f == 7 {
      SizeNotLonger(s);
    } else if f == 6 || f == 9 {
      ListNotLonger(rs, f);
    } else {
      StringNotLonger(rs, f, m);
    }
  }

  lemma {:induction false} UpToNotLonger(s: Bytes, k: nat)
    requires Decode(s).Some? && k <= 16
    ensures |PrintAll(RecordsUpTo(Decode(s).value, k))| <= LengthUpTo(Scan(s).rs, k) + if k >= 7 then Growth(s) else 0
  {
    hide Scan, OfField, Growth, Decode, FieldRecords;
    if k > 0 {
      UpToNotLonger(s, k - 1);
      FieldNotLonger(s, k);
      WrittenUpTo(Decode(s).value, k);
    }
  }

  /** Every string of what was decoded fits; the size decides. */
  lemma FitsIff(s: Bytes)
    requires |s| < TWO_TO_THE_32 && Decode(s).Some?
    ensures Fits(Decode(s).value) <==> Decode(s).value.size < TWO_TO_THE_64
  {
    hide Scan, OfField, ToNumber, Typed, Str, All, Decode, PrintAll, LengthUpTo;
    DecodedFields(s);
    var rs, m := Scan(s).rs, Decode(s).value;
    PrintedNotLonger(s);
    FieldsNotLonger(rs, 16);
    forall f | 1 <= f <= 16 && f != 7 ensures FieldFits(m, f) {
      LengthUpToMonotone(rs, f, 16);
      if f == 6 || f == 9 {
        ListNotLonger(rs, f);
      } else {
        StringNotLonger(rs, f, m);
      }
    }
    assert FieldFits(m, 7) <==> m.size < TWO_TO_THE_64;
  }

  /** The size on the wire is a 64-bit number. */
  lemma WireSizeBound(s: Bytes)
    requires Decode(s).Some?
    ensures WireSize(s) < TWO_TO_THE_64
  {
    var rs := Scan(s).rs;
    hide Scan, ToNumber;
    TypedWhenDecoded(rs);
    TypedOf(rs, 7);
    OfFieldIn(rs, 7);
    ScannedVarints(s);
  }

  lemma {:induction false} ScannedVarints(s: Bytes)
    requires Scan(s).Records?
    ensures forall r <- Scan(s).rs | r.Varint? :: r.value < TWO_TO_THE_64
    decreases |s|
  {
    hide TagAt;
    if s != [] && TagAt(s).value.wire != 4 {
      var Got(t, n) := TagAt(s);
      var Got(r, k) := ValueAt(s[n..], t);
      ScannedVarints(s[n + k..]);
      assert Scan(s).rs == [r] + Scan(s[n + k..]).rs;
    }
  }

  /**
   * For every input below 2^32 bytes that decodes: the package can be serialized exactly when the
   * last size sent stays below 2^64 as a double. Then it takes no more bytes than the input, save
   * one when rounding made the size's varint longer, and a second pass changes nothing.
   */
  lemma Normalises(s: Bytes)
    requires |s| < TWO_TO_THE_32 && Decode(s).Some?
    ensures var m := Decode(s).value;
      && (Fits(m) <==> WireSize(s) < TWO_TO_THE_64 - 1024)
      && |Encode(m)| <= |s| + Growth(s)
      && (Fits(m) ==> Decode(Encode(m)) == Some(m))
  {
    hide Scan, Decode, Fits, ToNumber, LengthUpTo, RecordsUpTo, WireSize;
    var m := Decode(s).value;
    DecodedFields(s);
    WireSizeBound(s);
    StaysBelow64(WireSize(s));
    FitsIff(s);
    UpToNotLonger(s, 16);
    PrintedNotLonger(s);
    FieldsNotLonger(Scan(s).rs, 16);
    Idempotent(WireSize(s));
    if Fits(m) {
      RoundTrip(m);
    }
  }

  /** No byte of that allowance is idle: a package of nothing but a size grows by just that much. */
  lemma GrowthReal(n: nat)
    requires 0 < n < TWO_TO_THE_64
    ensures var s := Encode(BLANK.(size := n));
      && Decode(s).Some?
      && |Encode(Decode(s).value)| == |s| + |EncodeVarint(ToNumber(n))| - |EncodeVarint(n)|
  {
    hide Decode, ToNumber, RecordsUpTo, PrintAll, EncodeVarint, PrintTag, Encode, Ulp, Fits;
    var m := BLANK.(size := n);
    AllFit(m);
    OnlySize(n);
    NumberNear(n);
    UlpSmall(n);
    OnlySize(ToNumber(n));
    RoundTrip(m);
  }

  /** And it does grow: 2^56 - 1 takes eight bytes, but is read as 2^56, which takes nine. */
  lemma OneByteMore()
    ensures |EncodeVarint(0xff_ffff_ffff_ffff)| == 8
    ensures |EncodeVarint(ToNumber(0xff_ffff_ffff_ffff))| == 9
  {
    assert Pow2(3) == 8;
    UlpInBinade(0xff_ffff_ffff_ffff, 3);
    assert ToNumber(0xff_ffff_ffff_ffff) == 0x100_0000_0000_0000;
  }

  lemma {:induction false} NothingBetween(m: Package, a: nat, b: nat)
    requires a <= b && forall f | a < f <= b :: FieldRecords(m, f) == []
    ensures RecordsUpTo(m, b) == RecordsUpTo(m, a)
    decreases b
  {
    hide FieldRecords;
    if a < b {
      NothingBetween(m, a, b - 1);
    }
  }

  lemma OnlySize(n: nat)
    requires n != 0
    ensures Encode(BLANK.(size := n)) == PrintTag(7, 0) + EncodeVarint(n)
  {
    hide EncodeVarint, PrintTag, RecordsUpTo;
    var m := BLANK.(size := n);
    NothingBetween(m, 0, 6);
    NothingBetween(m, 7, 16);
    WrittenUpTo(m, 7);
    NothingWritten(m);
    PrintOne(Varint(7, n));
    assert FieldRecords(m, 7) == [Varint(7, n)];
  }
}
