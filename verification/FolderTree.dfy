/**
 * What the bytes of a `Folders` message mean, stated without cursor or limit: a tree read off the
 * message's records, field by field. The class in Folders.dfy is proved to compute this meaning.
 */
module FolderTree {
  import opened Wrappers
  import opened Wire
  import opened BinaryIO

  /** A folder; `root` is optional, so its presence is tracked apart from its value. */
  datatype Tree = Tree(name: Bytes, root: Option<bool>, children: seq<Tree>)

  const EMPTY: Tree := Tree([], None, [])

  // ----- Meaning -----

  function LastBool(qs: seq<Record>, d: Option<bool>): Option<bool>
    requires Varints(qs)
  {
    if qs == [] then d else Some(BoolOf(qs[|qs| - 1].value))
  }

  /** The subfolders that the records of field 3 stand for, in order. */
  function Subtrees(qs: seq<Record>): (r: Option<seq<Tree>>)
    requires Delimiteds(qs)
    ensures r.Some? ==> |r.value| == |qs|
    decreases Weight(qs), 0
  {
    if qs == [] then Some([])
    else match (Resume(EMPTY, qs[0].payload), Subtrees(qs[1..]))
      case (Some(c), Some(cs)) => Some([c] + cs)
      case _ => None
  }

  /** The folder that `t` becomes when the records `rs` are decoded into it. */
  function Interpret(t: Tree, rs: seq<Record>): Option<Tree>
    decreases Weight(rs), 1
  {
    var names, roots, kids := OfField(rs, 1), OfField(rs, 2), OfField(rs, 3);
    OfFieldWeight(rs, 3);
    if !Delimiteds(names) || !Varints(roots) || !Delimiteds(kids) then None
    else match Subtrees(kids)
      case None => None
      case Some(cs) => Some(Tree(LastPayload(names, t.name), LastBool(roots, t.root), t.children + cs))
  }

  /** The folder that `t` becomes when the bytes `s` are decoded into it; None if that throws. */
  function Resume(t: Tree, s: Bytes): Option<Tree>
    decreases |s|, 2
  {
    match Scan(s)
    case Malformed => None
    case Records(rs, _) => ScanWeight(s); Interpret(t, rs)
  }

  function Decode(s: Bytes): Option<Tree> {
    Resume(EMPTY, s)
  }

  // ----- Decoding distributes over concatenation -----

  lemma {:induction false} SubtreesConcat(a: seq<Record>, b: seq<Record>)
    requires Delimiteds(a) && Delimiteds(b)
    ensures Subtrees(a + b) == match (Subtrees(a), Subtrees(b))
      case (Some(x), Some(y)) => Some(x + y)
      case _ => None
    decreases |a|
  {
    hide Resume;
    if a == [] {
      assert a + b == b;
      if Subtrees(b).Some? {
        assert [] + Subtrees(b).value == Subtrees(b).value;
      }
    } else {
      SubtreesConcat(a[1..], b);
      assert (a + b)[1..] == a[1..] + b;
      if Resume(EMPTY, a[0].payload).Some? && Subtrees(a[1..]).Some? && Subtrees(b).Some? {
        var c := Resume(EMPTY, a[0].payload).value;
        assert [c] + (Subtrees(a[1..]).value + Subtrees(b).value) == ([c] + Subtrees(a[1..]).value) + Subtrees(b).value;
      }
    }
  }

  /** Decoding `a + b` is decoding `a`, then `b` into what `a` left: for any two record sequences. */
  lemma InterpretConcat(t: Tree, a: seq<Record>, b: seq<Record>)
    ensures Interpret(t, a + b) == match Interpret(t, a)
      case None => None
      case Some(u) => Interpret(u, b)
  {
    hide Subtrees, OfField;
    OfFieldConcat(a, b, 1);
    OfFieldConcat(a, b, 2);
    OfFieldConcat(a, b, 3);
    InPieces(OfField(a, 1), OfField(b, 1));
    InPieces(OfField(a, 2), OfField(b, 2));
    var ka, kb := OfField(a, 3), OfField(b, 3);
    InPieces(ka, kb);
    if Delimiteds(ka) && Delimiteds(kb) {
      SubtreesConcat(ka, kb);
      if Subtrees(ka).Some? && Subtrees(kb).Some? {
        var x, y := Subtrees(ka).value, Subtrees(kb).value;
        assert t.children + (x + y) == (t.children + x) + y;
      }
    }
  }

  lemma InterpretDistributes()
    ensures Distributes(Interpret)
  {
    hide Interpret;
    forall m, a, b ensures Interpret(m, a + b) == Then(Interpret, Interpret(m, a), b) {
      InterpretConcat(m, a, b);
    }
  }

  lemma ResumeIsDecodeInto(t: Tree, s: Bytes)
    ensures Resume(t, s) == DecodeInto(Interpret, t, s)
  {
    hide Interpret;
  }

  /** The same on bytes: `a` must end at a record boundary, without a stray end-group tag. */
  lemma ResumeConcat(t: Tree, a: Bytes, b: Bytes)
    requires Whole(a)
    ensures Resume(t, a + b) == match Resume(t, a)
      case None => None
      case Some(u) => Resume(u, b)
  {
    hide Interpret, Resume;
    InterpretDistributes();
    DecodeConcat(Interpret, t, a, b);
    ResumeIsDecodeInto(t, a + b);
    ResumeIsDecodeInto(t, a);
    if Resume(t, a).Some? {
      ResumeIsDecodeInto(Resume(t, a).value, b);
    }
  }

  lemma InterpretNothing(t: Tree)
    ensures Interpret(t, []) == Some(t)
  {
    assert Subtrees([]) == Some([]);
    assert t.children + [] == t.children;
  }

  /** One record's effect: the `switch` of the decoder. */
  lemma InterpretOne(t: Tree, r: Record)
    ensures Interpret(t, [r]) == match r.field
      case 1 => if r.Delimited? then Some(t.(name := r.payload)) else None
      case 2 => if r.Varint? then Some(t.(root := Some(BoolOf(r.value)))) else None
      case 3 =>
        if !r.Delimited? then None
        else (match Decode(r.payload) case None => None case Some(c) => Some(t.(children := t.children + [c])))
      case _ => Some(t)
  {
    hide Resume;
    assert OfField([r], r.field) == [r];
    assert forall f | f != r.field :: OfField([r], f) == [];
    assert t.children + [] == t.children;
    if r.field == 3 && r.Delimited? {
      assert Subtrees([]) == Some([]);
      assert [r][1..] == [];
      if Decode(r.payload).Some? {
        assert [Decode(r.payload).value] + [] == [Decode(r.payload).value];
      }
    }
  }

  // ----- The canonical encoding -----

  function NameRecords(t: Tree): seq<Record> {
    if |t.name| > 0 then [Delimited(1, t.name)] else []
  }

  function RootRecords(t: Tree): seq<Record> {
    if t.root.Some? then [Varint(2, if t.root.value then 1 else 0)] else []
  }

  function ChildRecords(cs: seq<Tree>): (rs: seq<Record>)
    ensures |rs| == |cs| && Delimiteds(rs)
    decreases cs
  {
    if cs == [] then [] else [Delimited(3, Encode(cs[0]))] + ChildRecords(cs[1..])
  }

  /** The bytes `serialize` writes: a default name is left out, an absent root too. */
  function Encode(t: Tree): Bytes
    decreases t
  {
    PrintAll(NameRecords(t) + RootRecords(t) + ChildRecords(t.children))
  }

  /** Every length in the encoding of `t` is below 2^32. */
  predicate Fits(t: Tree) {
    |t.name| < TWO_TO_THE_32 && ChildrenFit(t.children)
  }

  predicate ChildrenFit(cs: seq<Tree>) {
    forall c <- cs :: Fits(c) && |Encode(c)| < TWO_TO_THE_32
  }

  lemma {:induction false} ChildRecordsSnoc(cs: seq<Tree>, c: Tree)
    ensures ChildRecords(cs + [c]) == ChildRecords(cs) + [Delimited(3, Encode(c))]
    decreases |cs|
  {
    hide Encode;
    if cs == [] {
      assert cs + [c] == [c];
      assert ChildRecords([c][1..]) == [];
    } else {
      ChildRecordsSnoc(cs[1..], c);
      assert (cs + [c])[1..] == cs[1..] + [c];
    }
  }

  // What the writer has appended after each statement of `serialize`.

  function PrintHead(t: Tree): Bytes {
    (if |t.name| > 0 then Print(Delimited(1, t.name)) else [])
    + if t.root.Some? then Print(Varint(2, if t.root.value then 1 else 0)) else []
  }

  lemma EncodeInPieces(t: Tree)
    ensures Encode(t) == PrintHead(t) + PrintAll(ChildRecords(t.children))
  {
    hide Print;
    PrintAllConcat(NameRecords(t) + RootRecords(t), ChildRecords(t.children));
    PrintAllConcat(NameRecords(t), RootRecords(t));
    PrintOne(Delimited(1, t.name));
    if t.root.Some? {
      PrintOne(Varint(2, if t.root.value then 1 else 0));
    }
  }

  lemma ChildrenPrinted(cs: seq<Tree>, i: nat)
    ensures PrintAll(ChildRecords(cs[..0])) == []
    ensures i < |cs| ==> PrintAll(ChildRecords(cs[..i + 1]))
                         == PrintAll(ChildRecords(cs[..i])) + Print(Delimited(3, Encode(cs[i])))
  {
    hide Print, Encode;
    if i < |cs| {
      assert cs[..i + 1] == cs[..i] + [cs[i]];
      ChildRecordsSnoc(cs[..i], cs[i]);
      PrintAllConcat(ChildRecords(cs[..i]), [Delimited(3, Encode(cs[i]))]);
      PrintOne(Delimited(3, Encode(cs[i])));
    }
  }
}
