/**
 * `serialize` writes a shortest encoding: reading any message and writing it back always succeeds,
 * never makes it longer, and reads back to the same tree.
 */
module FolderNormalForm {
  import opened Wrappers
  import opened Wire
  import opened FolderTree
  import opened FolderTheorems
  import opened ShortForm

  /** Whatever decodes to a tree is no shorter than what `serialize` writes for it. */
  lemma {:induction false} NotLonger(s: Bytes, t: Tree)
    requires |s| < TWO_TO_THE_32 && Decode(s) == Some(t)
    ensures Fits(t) && |Encode(t)| <= |s|
    decreases |s|, 1
  {
    hide Scan, OfField, Encode, PrintAll, Subtrees, PrintHead, Delimiteds, Varints;
    var rs := Scan(s).rs;
    var kids := OfField(rs, 3);
    ScanWeight(s);
    OfFieldWeight(rs, 3);
    OfFieldIn(rs, 3);
    assert Decode(s) == Interpret(EMPTY, rs);
    var cs := Subtrees(kids).value;
    assert [] + cs == cs == t.children;
    KidsNotLonger(kids, cs);
    PrintedNotLonger(s);
    FieldsNotLonger(rs, 3);
    assert LengthUpTo(rs, 3) == LengthUpTo(rs, 1) + |PrintAll(OfField(rs, 2))| + |PrintAll(kids)|;
    HeadNotLonger(rs, t);
    EncodeInPieces(t);
  }

  lemma HeadNotLonger(rs: seq<Record>, t: Tree)
    requires Delimiteds(OfField(rs, 1)) && Varints(OfField(rs, 2))
    requires t.name == LastPayload(OfField(rs, 1), []) && t.root == LastBool(OfField(rs, 2), None)
    ensures t.name == [] || |t.name| < |PrintAll(OfField(rs, 1))|
    ensures |PrintHead(t)| <= |PrintAll(OfField(rs, 1))| + |PrintAll(OfField(rs, 2))|
  {
    hide OfField, PrintHead, Print;
    var names, roots := OfField(rs, 1), OfField(rs, 2);
    OfFieldIn(rs, 1);
    OfFieldIn(rs, 2);
    HeadLength(t);
    if names != [] {
      MemberNotLonger(names, names[|names| - 1]);
      PrintDelimited(1, t.name);
    }
    if roots != [] {
      MemberNotLonger(roots, roots[|roots| - 1]);
      RootLength(roots[|roots| - 1]);
    }
  }

  lemma RootLength(r: Record)
    requires r.Varint? && r.field == 2
    ensures |Print(r)| >= 2
  {
  }

  lemma HeadLength(t: Tree)
    ensures |PrintHead(t)| ==
      (if t.name == [] then 0 else |Print(Delimited(1, t.name))|) + if t.root.Some? then 2 else 0
  {
    assert |Print(Varint(2, 0))| == 2 && |Print(Varint(2, 1))| == 2;
  }

  lemma {:induction false} KidsNotLonger(kids: seq<Record>, cs: seq<Tree>)
    requires Weight(kids) < TWO_TO_THE_32 && Delimiteds(kids) && (forall q <- kids :: q.field == 3)
    requires Subtrees(kids) == Some(cs)
    ensures ChildrenFit(cs) && |PrintAll(ChildRecords(cs))| <= |PrintAll(kids)|
    decreases Weight(kids), 0
  {
    hide Resume, Encode, Fits, Print;
    if kids != [] {
      var p, c := kids[0].payload, cs[0];
      assert cs[1..] == Subtrees(kids[1..]).value;
      NotLonger(p, c);
      KidsNotLonger(kids[1..], cs[1..]);
      VarintMonotone(|Encode(c)|, |p|);
      PrintDelimited(3, Encode(c));
      PrintDelimited(3, p);
      assert ChildRecords(cs)[1..] == ChildRecords(cs[1..]);
    }
  }

  /**
   * For every input below 2^32 bytes that decodes: the result can be serialized, in no more bytes
   * than the input took, and reads back unchanged.
   */
  lemma Normalises(s: Bytes)
    requires |s| < TWO_TO_THE_32 && Decode(s).Some?
    ensures var t := Decode(s).value;
      Fits(t) && |Encode(t)| <= |s| && Decode(Encode(t)) == Some(t)
  {
    NotLonger(s, Decode(s).value);
    RoundTrip(Decode(s).value);
  }
}
