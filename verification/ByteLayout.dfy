/**
 * The bytes themselves: what the reader and writer put on the wire and accept from it, and where
 * each field of each message stands, with every tag written out.
 */
module ByteLayout {
  import opened Wire
  import opened Wrappers
  import FileList
  import FolderTree
  import RpmFields
  import RpmNormalForm

  // ----- "Base 128 Varints" -----

  /** The number whose groups of seven bits, least significant first, are the low bits of the bytes. */
  function Base128(s: Bytes): nat {
    if s == [] then 0 else s[0] % 128 + 128 * Base128(s[1..])
  }

  /** The high bit says that another byte follows. */
  predicate Continued(s: Bytes) {
    s != [] && (forall i | 0 <= i < |s| - 1 :: s[i] >= 128) && s[|s| - 1] < 128
  }

  /** A number is written as its base-128 digits, with no superfluous byte. */
  lemma {:induction false} VarintWritten(n: nat)
    ensures var s := EncodeVarint(n);
      Continued(s) && Base128(s) == n && (|s| > 1 ==> s[|s| - 1] != 0)
  {
    var s := EncodeVarint(n);
    if n < 128 {
      assert s[1..] == [];
    } else {
      VarintWritten(n / 128);
      var t := EncodeVarint(n / 128);
      assert s[1..] == t;
      assert forall i | 0 <= i < |t| :: s[i + 1] == t[i];
      assert forall i | 1 <= i < |s| :: s[i] == t[i - 1];
    }
  }

  lemma {:induction false} DigitsRead(s: Bytes, k: nat, fuel: nat)
    requires k <= |s| && k <= fuel && Continued(s[..k])
    ensures DecodeVarint(s, fuel) == Got(Base128(s[..k]), k)
    decreases k
  {
    assert s[..k][0] == s[0];
    assert s[..k][1..] == s[1..][..k - 1];
    if k == 1 {
      assert s[1..][..0] == [];
    } else {
      var t := s[1..][..k - 1];
      assert forall i | 1 <= i < k :: s[..k][i] == t[i - 1];
      assert forall i | 0 <= i < k - 1 :: t[i] == s[..k][i + 1];
      DigitsRead(s[1..], k - 1, fuel - 1);
    }
  }

  lemma {:induction false} DigitsFound(s: Bytes, fuel: nat)
    requires DecodeVarint(s, fuel).Got?
    ensures DecodeVarint(s, fuel).size <= fuel && Continued(s[..DecodeVarint(s, fuel).size])
    decreases fuel
  {
    var k := DecodeVarint(s, fuel).size;
    if s[0] >= 128 {
      DigitsFound(s[1..], fuel - 1);
      var t := s[1..][..k - 1];
      assert forall i | 1 <= i < k :: s[..k][i] == t[i - 1];
    }
  }

  /** A varint is read exactly when it ends within ten bytes; tags and lengths keep its low 32 bits. */
  lemma VarintRead(s: Bytes)
    ensures VarintAt(s).Got? <==> exists k: nat :: k <= 10 && k <= |s| && Continued(s[..k])
    ensures forall k: nat | k <= 10 && k <= |s| && Continued(s[..k]) ::
      && VarintAt(s) == Got(Base128(s[..k]) % 0x1_0000_0000_0000_0000, k)
      && Varint32At(s) == Got(Base128(s[..k]) % 0x1_0000_0000, k)
  {
    forall k: nat | k <= 10 && k <= |s| && Continued(s[..k])
      ensures DecodeVarint(s, MAX_VARINT) == Got(Base128(s[..k]), k)
    {
      DigitsRead(s, k, MAX_VARINT);
    }
    if VarintAt(s).Got? {
      DigitsFound(s, MAX_VARINT);
    }
  }

  // ----- "Message Structure" -----

  /** Tags: field number and wire type in one byte, in two from field 16 on. */
  lemma TagBytes(f: nat, w: nat)
    requires f < 2048 && w < 8
    ensures f < 16 ==> PrintTag(f, w) == [8 * f + w]
    ensures f >= 16 ==> PrintTag(f, w) == [(8 * f + w) % 128 + 128, (8 * f + w) / 128]
  {
    var n := 8 * f + w;
    if f >= 16 {
      assert EncodeVarint(n) == [n % 128 + 128] + EncodeVarint(n / 128);
    }
  }

  lemma OneByte(n: nat)
    requires n < 128
    ensures EncodeVarint(n) == [n]
  {
  }

  lemma RecordScanned(r: Record)
    requires WellFormed(r)
    ensures Scan(PrintTag(r.field, WireType(r)) + PrintValue(r)) == Records([r], false)
  {
    PrintOne(r);
    ScanPrinted([r]);
  }

  /** What each wire type looks like, for a field below 16 and a value or length below 128. */
  lemma VarintBytes(f: nat, v: Byte)
    requires 1 <= f < 16 && v < 128
    ensures Scan([8 * f, v]) == Records([Varint(f, v)], false)
  {
    RecordScanned(Varint(f, v));
    TagBytes(f, 0);
    OneByte(v);
    hide Scan, PrintTag;
    assert [8 * f] + [v] == [8 * f, v];
  }

  lemma FixedBytes(f: nat, eight: Bytes, four: Bytes)
    requires 1 <= f < 16 && |eight| == 8 && |four| == 4
    ensures Scan([8 * f + 1] + eight) == Records([Fixed64(f, eight)], false)
    ensures Scan([8 * f + 5] + four) == Records([Fixed32(f, four)], false)
  {
    hide Scan;
    RecordScanned(Fixed64(f, eight));
    RecordScanned(Fixed32(f, four));
    TagBytes(f, 1);
    TagBytes(f, 5);
  }

  lemma DelimitedBytes(f: nat, p: Bytes)
    requires 1 <= f < 16 && |p| < 128
    ensures Scan([8 * f + 2, |p|] + p) == Records([Delimited(f, p)], false)
  {
    hide Scan;
    RecordScanned(Delimited(f, p));
    TagBytes(f, 2);
    OneByte(|p|);
    hide PrintTag;
    assert [8 * f + 2] + ([|p|] + p) == [8 * f + 2, |p|] + p;
  }

  /** A group runs from its start tag to the end tag of the same field. */
  lemma GroupBytes(f: nat, body: seq<Record>)
    requires 1 <= f < 16 && forall q <- body :: WellFormed(q)
    ensures Scan([8 * f + 3] + PrintAll(body) + [8 * f + 4]) == Records([Group(f, body)], false)
  {
    hide Scan;
    RecordScanned(Group(f, body));
    TagBytes(f, 3);
    TagBytes(f, 4);
    hide PrintTag;
    assert [8 * f + 3] + (PrintAll(body) + [8 * f + 4]) == [8 * f + 3] + PrintAll(body) + [8 * f + 4];
  }

  /** An end tag outside a group ends the message; one of another field inside a group is malformed. */
  lemma EndTags(f: nat, g: nat)
    requires 1 <= f < 16 && 1 <= g < 16 && f != g
    ensures Scan([8 * f + 4]) == Records([], true)
    ensures Scan([8 * f + 3, 8 * g + 4]) == Malformed
  {
    var s: Bytes := [8 * f + 3, 8 * g + 4];
    assert s[1..] == [8 * g + 4];
    assert TagAt(s) == Got(Tag(f, 3), 1);
    assert TagAt(s[1..]) == Got(Tag(g, 4), 1);
    GroupStep(s[1..], f);
  }

  // ----- The messages -----

  lemma ShortDelimited(f: nat, p: Bytes)
    requires 1 <= f < 16 && |p| < 128
    ensures Print(Delimited(f, p)) == [8 * f + 2, |p|] + p
    ensures PrintAll([Delimited(f, p)]) == [8 * f + 2, |p|] + p
  {
    TagBytes(f, 2);
    OneByte(|p|);
    PrintDelimited(f, p);
    PrintOne(Delimited(f, p));
    hide PrintTag, EncodeVarint;
    assert [8 * f + 2] + [|p|] + p == [8 * f + 2, |p|] + p;
  }

  /** A folder: field 1 its name, field 2 its root flag, field 3 a child. */
  lemma FolderBytes(name: Bytes, root: bool, cs: seq<FolderTree.Tree>, c: FolderTree.Tree)
    requires 0 < |name| < 128 && |FolderTree.Encode(c)| < 128
    ensures FolderTree.Encode(FolderTree.Tree([], None, [])) == []
    ensures FolderTree.Encode(FolderTree.Tree(name, None, [])) == [10, |name|] + name
    ensures FolderTree.Encode(FolderTree.Tree([], Some(root), [])) == [16, if root then 1 else 0]
    ensures FolderTree.Encode(FolderTree.Tree(name, Some(root), [])) ==
      [10, |name|] + name + [16, if root then 1 else 0]
    ensures FolderTree.Encode(FolderTree.Tree(name, Some(root), cs + [c])) ==
      FolderTree.Encode(FolderTree.Tree(name, Some(root), cs)) + [26, |FolderTree.Encode(c)|] + FolderTree.Encode(c)
  {
    hide FolderTree.Encode, FolderTree.PrintHead, PrintAll;
    var blank, named := FolderTree.Tree([], None, []), FolderTree.Tree(name, None, []);
    var flagged, both := FolderTree.Tree([], Some(root), []), FolderTree.Tree(name, Some(root), []);
    HeadBytes(name, root);
    FolderTree.ChildrenPrinted([], 0);
    FolderTree.EncodeInPieces(blank);
    FolderTree.EncodeInPieces(named);
    FolderTree.EncodeInPieces(flagged);
    FolderTree.EncodeInPieces(both);
    assert FolderTree.Encode(both) == FolderTree.PrintHead(both) + [];
    assert FolderTree.Encode(blank) == FolderTree.PrintHead(blank) + [];
    assert FolderTree.Encode(named) == FolderTree.PrintHead(named) + [];
    assert FolderTree.Encode(flagged) == FolderTree.PrintHead(flagged) + [];
    ChildBytes(name, root, cs, c);
  }

  lemma HeadBytes(name: Bytes, root: bool)
    requires 0 < |name| < 128
    ensures FolderTree.PrintHead(FolderTree.Tree([], None, [])) == []
    ensures FolderTree.PrintHead(FolderTree.Tree(name, None, [])) == [10, |name|] + name
    ensures FolderTree.PrintHead(FolderTree.Tree([], Some(root), [])) == [16, if root then 1 else 0]
    ensures FolderTree.PrintHead(FolderTree.Tree(name, Some(root), [])) ==
      [10, |name|] + name + [16, if root then 1 else 0]
  {
    ShortDelimited(1, name);
    FlagBytes(root);
    hide Print;
  }

  lemma FlagBytes(root: bool)
    ensures Print(Varint(2, if root then 1 else 0)) == [16, if root then 1 else 0]
  {
    TagBytes(2, 0);
    OneByte(if root then 1 else 0);
  }

  lemma ChildBytes(name: Bytes, root: bool, cs: seq<FolderTree.Tree>, c: FolderTree.Tree)
    requires |FolderTree.Encode(c)| < 128
    ensures FolderTree.Encode(FolderTree.Tree(name, Some(root), cs + [c])) ==
      FolderTree.Encode(FolderTree.Tree(name, Some(root), cs)) + [26, |FolderTree.Encode(c)|] + FolderTree.Encode(c)
  {
    hide FolderTree.Encode, PrintAll, Print;
    var e := FolderTree.Encode(c);
    var t, u := FolderTree.Tree(name, Some(root), cs), FolderTree.Tree(name, Some(root), cs + [c]);
    ShortDelimited(3, e);
    FolderTree.EncodeInPieces(t);
    FolderTree.EncodeInPieces(u);
    assert FolderTree.PrintHead(t) == FolderTree.PrintHead(u);
    hide FolderTree.PrintHead;
    FolderTree.ChildRecordsSnoc(cs, c);
    PrintAllConcat(FolderTree.ChildRecords(cs), [Delimited(3, e)]);
    var head, kids := FolderTree.PrintHead(t), PrintAll(FolderTree.ChildRecords(cs));
    assert head + (kids + ([26, |e|] + e)) == (head + kids) + [26, |e|] + e;
  }

  /** Any varint with a bit among its low 32 is true. */
  lemma RootRead(v: nat)
    requires v < 0x1_0000_0000_0000_0000
    ensures FolderTree.Decode(Print(Varint(2, v))) ==
      Some(FolderTree.Tree([], Some(v % 0x1_0000_0000 != 0), []))
  {
    hide FolderTree.Interpret, Scan;
    var r := Varint(2, v);
    RecordScanned(r);
    FolderTree.InterpretOne(FolderTree.EMPTY, r);
  }

  /** A file list: each file a submessage of field 1, with its name in field 1. */
  lemma FileBytes(name: Bytes)
    requires 0 < |name| < 126
    ensures FileList.Encode([]) == [] && FileList.Encode([[]]) == [10, 0]
    ensures FileList.Encode([name]) == [10, |name| + 2, 10, |name|] + name
  {
    hide PrintAll;
    ShortDelimited(1, name);
    var file := [10, |name|] + name;
    ShortDelimited(1, file);
    ShortDelimited(1, []);
    assert FileList.EncodeFile(name) == file;
    assert Elements(1, FileList.EncodedFiles([name])) == [Delimited(1, file)];
    assert Elements(1, FileList.EncodedFiles([[]])) == [Delimited(1, [])];
    assert [10, |file|] + file == [10, |name| + 2, 10, |name|] + name;
    PrintNothing(1);
    assert FileList.EncodedFiles([]) == [];
  }

  /** A package that holds nothing but one field. */
  lemma OnlyField(m: RpmFields.Package, f: nat)
    requires 1 <= f <= 16 && forall g | 1 <= g <= 16 && g != f :: RpmFields.FieldRecords(m, g) == []
    ensures RpmFields.Encode(m) == PrintAll(RpmFields.FieldRecords(m, f))
  {
    hide RpmFields.RecordsUpTo, RpmFields.FieldRecords, PrintAll;
    RpmNormalForm.NothingBetween(m, 0, f - 1);
    RpmNormalForm.NothingBetween(m, f, 16);
    RpmFields.WrittenUpTo(m, f);
    RpmFields.NothingWritten(m);
  }

  lemma OnlyString(m: RpmFields.Package, f: nat)
    requires RpmFields.Singular(f) && 0 < |RpmFields.StrOf(m, f)| < 128
    requires forall g | RpmFields.Singular(g) && g != f :: RpmFields.StrOf(m, g) == []
    requires m.groups == [] && m.source == [] && m.size == 0
    ensures var v := RpmFields.StrOf(m, f);
      RpmFields.Encode(m) == (if f < 16 then [8 * f + 2] else [130, 1]) + [|v|] + v
  {
    hide RpmFields.Encode, PrintAll, PrintTag, EncodeVarint, RpmFields.StrOf;
    var v := RpmFields.StrOf(m, f);
    OnlyField(m, f);
    PrintOne(Delimited(f, v));
    PrintDelimited(f, v);
    TagBytes(f, 2);
    OneByte(|v|);
  }

  /** A package: which field each string is. */
  lemma PackageBytes(v: Bytes)
    requires 0 < |v| < 128
    ensures RpmFields.Encode(RpmFields.BLANK.(name := v)) == [10] + [|v|] + v
    ensures RpmFields.Encode(RpmFields.BLANK.(version := v)) == [18] + [|v|] + v
    ensures RpmFields.Encode(RpmFields.BLANK.(release := v)) == [26] + [|v|] + v
    ensures RpmFields.Encode(RpmFields.BLANK.(architecture := v)) == [34] + [|v|] + v
    ensures RpmFields.Encode(RpmFields.BLANK.(distribution := v)) == [42] + [|v|] + v
    ensures RpmFields.Encode(RpmFields.BLANK.(license := v)) == [66] + [|v|] + v
  {
    hide RpmFields.Encode;
    OnlyString(RpmFields.BLANK.(name := v), 1);
    OnlyString(RpmFields.BLANK.(version := v), 2);
    OnlyString(RpmFields.BLANK.(release := v), 3);
    OnlyString(RpmFields.BLANK.(architecture := v), 4);
    OnlyString(RpmFields.BLANK.(distribution := v), 5);
    OnlyString(RpmFields.BLANK.(license := v), 8);
  }

  /** The remaining strings, with the two-byte tag of field 16. */
  lemma PackageBytesFrom10(v: Bytes)
    requires 0 < |v| < 128
    ensures RpmFields.Encode(RpmFields.BLANK.(buildTime := v)) == [82] + [|v|] + v
    ensures RpmFields.Encode(RpmFields.BLANK.(buildHost := v)) == [90] + [|v|] + v
    ensures RpmFields.Encode(RpmFields.BLANK.(vendor := v)) == [98] + [|v|] + v
    ensures RpmFields.Encode(RpmFields.BLANK.(packager := v)) == [106] + [|v|] + v
    ensures RpmFields.Encode(RpmFields.BLANK.(url := v)) == [114] + [|v|] + v
    ensures RpmFields.Encode(RpmFields.BLANK.(summary := v)) == [122] + [|v|] + v
    ensures RpmFields.Encode(RpmFields.BLANK.(description := v)) == [130, 1] + [|v|] + v
  {
    hide RpmFields.Encode;
    OnlyString(RpmFields.BLANK.(buildTime := v), 10);
    OnlyString(RpmFields.BLANK.(buildHost := v), 11);
    OnlyString(RpmFields.BLANK.(vendor := v), 12);
    OnlyString(RpmFields.BLANK.(packager := v), 13);
    OnlyString(RpmFields.BLANK.(url := v), 14);
    OnlyString(RpmFields.BLANK.(summary := v), 15);
    OnlyString(RpmFields.BLANK.(description := v), 16);
  }

  /** The repeated fields, empty elements included, and the size. */
  lemma PackageListBytes(v: Bytes, n: nat)
    requires |v| < 128 && 0 < n < 128
    ensures RpmFields.Encode(RpmFields.BLANK.(groups := [[], v])) == [50, 0] + ([50, |v|] + v)
    ensures RpmFields.Encode(RpmFields.BLANK.(source := [[], v])) == [74, 0] + ([74, |v|] + v)
    ensures RpmFields.Encode(RpmFields.BLANK.(size := n)) == [56, n]
  {
    hide RpmFields.Encode, PrintAll, PrintTag, EncodeVarint;
    OnlyField(RpmFields.BLANK.(groups := [[], v]), 6);
    OnlyField(RpmFields.BLANK.(source := [[], v]), 9);
    TwoElements(6, v);
    TwoElements(9, v);
    RpmNormalForm.OnlySize(n);
    TagBytes(7, 0);
    OneByte(n);
  }

  lemma TwoElements(f: nat, v: Bytes)
    requires 1 <= f < 16 && |v| < 128
    ensures PrintAll(Elements(f, [[], v])) == [8 * f + 2, 0] + ([8 * f + 2, |v|] + v)
  {
    hide PrintAll;
    assert Elements(f, [[], v]) == [Delimited(f, [])] + [Delimited(f, v)];
    PrintAllConcat([Delimited(f, [])], [Delimited(f, v)]);
    ShortDelimited(f, []);
    ShortDelimited(f, v);
  }
}
