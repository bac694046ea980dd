/**
 * Printing is the shortest way to write records: whatever bytes were scanned, overlong varints and
 * all, printing their records takes no more of them.
 */
module ShortForm {
  import opened Wire

  /** A varint is never shorter than its canonical form, even after its high bits are dropped. */
  lemma {:induction false} VarintMinimal(s: Bytes, fuel: nat, w: nat)
    requires DecodeVarint(s, fuel).Got? && w <= DecodeVarint(s, fuel).value
    ensures |EncodeVarint(w)| <= DecodeVarint(s, fuel).size
    decreases |s|
  {
    if s[0] >= 128 && w >= 128 {
      VarintMinimal(s[1..], fuel - 1, w / 128);
    }
  }

  lemma {:induction false} VarintMonotone(v: nat, w: nat)
    requires v <= w
    ensures 1 <= |EncodeVarint(v)| <= |EncodeVarint(w)|
  {
    if w >= 128 {
      VarintMonotone(v / 128, w / 128);
    }
  }

  lemma TagShort(s: Bytes)
    requires TagAt(s).Got?
    ensures var t := TagAt(s).value;
      t.wire < 8 && |PrintTag(t.field, t.wire)| <= TagAt(s).size
  {
    var v := DecodeVarint(s, MAX_VARINT).value;
    VarintMinimal(s, MAX_VARINT, v % TWO_TO_THE_32);
  }

  lemma {:induction false} ValueShort(s: Bytes, t: Tag)
    requires ValueAt(s, t).Got?
    ensures var r := ValueAt(s, t).value;
      WireType(r) == t.wire && |PrintValue(r)| <= ValueAt(s, t).size
    decreases |s|, 1
  {
    if t.wire == 0 {
      VarintMinimal(s, MAX_VARINT, DecodeVarint(s, MAX_VARINT).value % TWO_TO_THE_64);
    } else if t.wire == 2 {
      VarintMinimal(s, MAX_VARINT, DecodeVarint(s, MAX_VARINT).value % TWO_TO_THE_32);
    } else if t.wire == 3 {
      GroupShort(s, t.field);
    }
  }

  lemma {:induction false} GroupShort(s: Bytes, field: nat)
    requires GroupAt(s, field).Got?
    ensures |PrintAll(GroupAt(s, field).value)| + |PrintTag(field, 4)| <= GroupAt(s, field).size
    decreases |s|, 0
  {
    hide TagAt, ValueAt, PrintTag, PrintValue, WireType;
    var Got(t, n) := TagAt(s);
    TagShort(s);
    if t.wire != 4 {
      var Got(r, k) := ValueAt(s[n..], t);
      ValueShort(s[n..], t);
      GroupShort(s[n + k..], field);
      var rs := GroupAt(s, field).value;
      assert rs[0] == r && rs[1..] == GroupAt(s[n + k..], field).value;
    }
  }

  /** The records of any input, printed, are no longer than the input. */
  lemma {:induction false} PrintedNotLonger(s: Bytes)
    requires Scan(s).Records?
    ensures |PrintAll(Scan(s).rs)| <= |s|
    decreases |s|
  {
    hide TagAt, ValueAt, PrintTag, PrintValue, WireType;
    if s != [] && TagAt(s).value.wire != 4 {
      var Got(t, n) := TagAt(s);
      var Got(r, k) := ValueAt(s[n..], t);
      TagShort(s);
      ValueShort(s[n..], t);
      PrintedNotLonger(s[n + k..]);
      assert Scan(s).rs[0] == r && Scan(s).rs[1..] == Scan(s[n + k..]).rs;
    }
  }

  // ----- Field by field -----

  /** The bytes that fields 1 to `k` take when printed. */
  function LengthUpTo(rs: seq<Record>, k: nat): nat {
    if k == 0 then 0 else LengthUpTo(rs, k - 1) + |PrintAll(OfField(rs, k))|
  }

  lemma LengthOfField(rs: seq<Record>, f: nat)
    requires rs != []
    ensures |PrintAll(OfField(rs, f))| ==
      |PrintAll(OfField(rs[1..], f))| + if rs[0].field == f then |Print(rs[0])| else 0
  {
    hide Print;
    var qs := OfField(rs, f);
    if rs[0].field == f {
      assert qs[0] == rs[0] && qs[1..] == OfField(rs[1..], f);
    } else {
      assert qs == OfField(rs[1..], f);
    }
  }

  lemma {:induction false} LengthOfFirst(rs: seq<Record>, k: nat)
    requires rs != []
    ensures LengthUpTo(rs, k) == LengthUpTo(rs[1..], k) + if 1 <= rs[0].field <= k then |Print(rs[0])| else 0
    decreases k
  {
    hide Print, OfField;
    if k > 0 {
      LengthOfFirst(rs, k - 1);
      LengthOfField(rs, k);
    }
  }

  lemma {:induction false} LengthOfNothing(k: nat)
    ensures LengthUpTo([], k) == 0
  {
    if k > 0 {
      LengthOfNothing(k - 1);
    }
  }

  /** Sorting records by field loses nothing but the fields beyond `k`. */
  lemma {:induction false} FieldsNotLonger(rs: seq<Record>, k: nat)
    ensures LengthUpTo(rs, k) <= |PrintAll(rs)|
    decreases |rs|
  {
    hide Print, LengthUpTo;
    if rs == [] {
      LengthOfNothing(k);
    } else {
      LengthOfFirst(rs, k);
      FieldsNotLonger(rs[1..], k);
    }
  }

  lemma {:induction false} LengthUpToMonotone(rs: seq<Record>, f: nat, k: nat)
    requires 1 <= f <= k
    ensures |PrintAll(OfField(rs, f))| <= LengthUpTo(rs, k)
    decreases k
  {
    if f < k {
      LengthUpToMonotone(rs, f, k - 1);
    }
  }

  /** One record of a list takes no more than the list. */
  lemma {:induction false} MemberNotLonger(qs: seq<Record>, q: Record)
    requires q in qs
    ensures |Print(q)| <= |PrintAll(qs)|
    decreases |qs|
  {
    hide Print;
    if q != qs[0] {
      MemberNotLonger(qs[1..], q);
    }
  }
}
