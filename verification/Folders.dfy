/** The generated `Folders` message class: fields set and appended in place, children on the heap. */
module FoldersApi {
  import opened Wrappers
  import opened Wire
  import opened BinaryIO
  import opened FolderTree
  import opened FolderTheorems

  class Folders {
    var name: Bytes
    var root: Option<bool>
    var children: seq<Folders>

    ghost var Repr: set<object>
    ghost var tree: Tree  // the value of this message and of every message below it

    ghost predicate Valid()
      reads this, Repr
      decreases Repr
    {
      && this in Repr
      && tree.name == name && tree.root == root && |tree.children| == |children|
      && forall i | 0 <= i < |children| ::
           && children[i] in Repr && children[i].Repr <= Repr && this !in children[i].Repr
           && children[i].Valid() && children[i].tree == tree.children[i]
    }

    constructor ()
      ensures Valid() && fresh(Repr) && tree == EMPTY
    {
      name, root, children := [], None, [];
      Repr, tree := {this}, EMPTY;
    }

    method SetName(value: Bytes)
      requires Valid()
      modifies this
      ensures Valid() && Repr == old(Repr) && tree == old(tree).(name := value)
    {
      name := value;
      tree := tree.(name := value);
    }

    method SetRoot(value: bool)
      requires Valid()
      modifies this
      ensures Valid() && Repr == old(Repr) && tree == old(tree).(root := Some(value))
    {
      root := Some(value);
      tree := tree.(root := Some(value));
    }

    method AddChild(child: Folders)
      requires Valid() && child.Valid() && this !in child.Repr
      modifies this
      ensures Valid() && Repr == old(Repr) + child.Repr
      ensures tree == old(tree).(children := old(tree).children + [child.tree])
    {
      children := children + [child];
      tree := tree.(children := tree.children + [child.tree]);
      Repr := Repr + child.Repr;
    }

    /** Appends this message to a shared writer; fails exactly when some length exceeds 32 bits. */
    method Serialize(writer: BinaryWriter) returns (o: Option<()>)
      requires Valid() && writer !in Repr
      modifies writer
      ensures o.Some? <==> Fits(tree)
      ensures o.Some? ==> writer.out == old(writer.out) + Encode(tree)
      decreases Repr, 1
    {
      hide Print, PrintAll, ChildRecords;
      ghost var out := writer.out;
      if |name| > 0 {
        var _ :- writer.WriteString(1, name);
      }
      if root.Some? {
        writer.WriteBool(2, root.value);
      }
      assert writer.out == out + PrintHead(tree);
      var _ :- SerializeChildren(writer);
      EncodeInPieces(tree);
      return Some(());
    }

    /** The `writeRepeatedMessage` of field 3: every child in turn, as a submessage. */
    method SerializeChildren(writer: BinaryWriter) returns (o: Option<()>)
      requires Valid() && writer !in Repr
      modifies writer
      ensures o.Some? <==> ChildrenFit(tree.children)
      ensures o.Some? ==> writer.out == old(writer.out) + PrintAll(ChildRecords(tree.children))
      decreases Repr, 0
    {
      hide Print, PrintAll, Encode, ChildRecords, Fits;
      ghost var cs := tree.children;
      ChildrenPrinted(cs, 0);
      for i := 0 to |children|
        invariant Valid() && tree.children == cs
        invariant ChildrenFit(cs[..i])
        invariant writer.out == old(writer.out) + PrintAll(ChildRecords(cs[..i]))
      {
        assert cs[i] in cs;
        var _ :- children[i].SerializeDelimited(writer);
        ChildrenPrinted(cs, i);
        assert cs[..i + 1] == cs[..i] + [cs[i]];
      }
      assert cs[..|children|] == cs;
      return Some(());
    }

    /** Writes this message as an element of its parent's `children`. */
    method SerializeDelimited(writer: BinaryWriter) returns (o: Option<()>)
      requires Valid() && writer !in Repr
      modifies writer
      ensures o.Some? <==> Fits(tree) && |Encode(tree)| < TWO_TO_THE_32
      ensures o.Some? ==> writer.out == old(writer.out) + Print(Delimited(3, Encode(tree)))
      decreases Repr, 2
    {
      hide Print, Encode;
      ghost var before := writer.out;
      var bookmark := writer.BeginDelimited(3);
      ghost var header := writer.out;
      var _ :- Serialize(writer);
      assert writer.out[..bookmark] == header && writer.out[bookmark..] == Encode(tree);
      var _ :- writer.EndDelimited(bookmark);
      PrintDelimited(3, Encode(tree));
      return Some(());
    }

    method SerializeBinary() returns (r: Option<Bytes>)
      requires Valid()
      ensures r == if Fits(tree) then Some(Encode(tree)) else None
    {
      var writer := new BinaryWriter();
      var o := Serialize(writer);
      assert [] + Encode(tree) == Encode(tree);
      return if o.Some? then Some(writer.out) else None;
    }

    /** The body of the decoding loop: the `switch` on the field number just read. */
    method ReadField(reader: BinaryReader) returns (o: Option<()>)
      requires Valid() && reader.Valid() && reader !in Repr
      modifies this, reader
      ensures reader.Valid() && Valid() && fresh(Repr - old(Repr))
      ensures o.Some? <==> old(reader.Here()).Got? && Interpret(old(tree), [old(reader.Here()).value]).Some?
      ensures o.Some? ==> && Interpret(old(tree), [old(reader.Here()).value]) == Some(tree)
                          && reader.cursor == old(reader.cursor) + old(reader.Here()).size
                          && reader.limit == old(reader.limit)
      ensures old(reader.cursor) <= reader.cursor
      decreases reader.limit - reader.cursor, 0
    {
      ghost var here, t := reader.Here(), tree;
      if here.Got? {
        InterpretOne(t, here.value);
      }
      hide Interpret, Decode, ValueAt;
      match reader.field {
        case 1 =>
          var value :- reader.ReadString();
          SetName(value);
        case 2 =>
          var value :- reader.ReadBool();
          SetRoot(value);
        case 3 =>
          var saved :- reader.EnterMessage();
          var end := reader.limit;
          var child :- Deserialize(reader);
          reader.LeaveMessage(end, saved);
          AddChild(child);
        case _ =>
          var _ :- reader.SkipField();
      }
      return Some(());
    }

    /**
     * Reads a message from the reader's cursor to its limit. Never looks past the limit, gives it
     * back unchanged, and reaches it unless a stray end-group tag ends the message first.
     */
    static method Deserialize(reader: BinaryReader) returns (r: Option<Folders>)
      requires reader.Valid()
      modifies reader
      ensures reader.Valid() && old(reader.cursor) <= reader.cursor
      ensures r.Some? <==> Decode(old(reader.Rest())).Some?
      ensures r.Some? ==> && r.value.Valid() && fresh(r.value.Repr)
                          && Some(r.value.tree) == Decode(old(reader.Rest()))
                          && reader.limit == old(reader.limit)
                          && (Whole(old(reader.Rest())) ==> reader.cursor == reader.limit)
      decreases reader.limit - reader.cursor, 1
    {
      hide Interpret, ValueAt, TagAt, Scan, Distributes, Then;
      ghost var input, done := reader.Rest(), [];
      var message := new Folders();
      InterpretNothing(EMPTY);
      InterpretDistributes();
      ResumeIsDecodeInto(EMPTY, input);
      while true
        invariant reader.Valid() && old(reader.cursor) <= reader.cursor && reader.limit == old(reader.limit)
        invariant message.Valid() && fresh(message.Repr)
        invariant Scan(input) == Prepend(done, Scan(reader.Rest()))
        invariant Interpret(EMPTY, done) == Some(message.tree)
        decreases reader.limit - reader.cursor
      {
        ghost var rest, u := reader.Rest(), message.tree;
        var more :- reader.NextField();
        if !more || reader.wire == 4 {
          ScanEnds(input, done, rest);
          break;
        }
        ghost var n, here := TagAt(rest).size, reader.Here();
        assert reader.Rest() == rest[n..];
        if here.Got? {
          DecodeStep(Interpret, EMPTY, input, done, rest, u);
          done := done + [here.value];
        } else {
          ScanFails(input, done, rest);
        }
        var _ :- message.ReadField(reader);
        assert reader.Rest() == rest[n + here.size..];
      }
      return Some(message);
    }

    static method DeserializeBinary(bytes: Bytes) returns (r: Option<Folders>)
      ensures r.Some? <==> Decode(bytes).Some?
      ensures r.Some? ==> r.value.Valid() && fresh(r.value.Repr) && Some(r.value.tree) == Decode(bytes)
    {
      var reader := new BinaryReader(bytes);
      r := Deserialize(reader);
    }
  }

  /** The message of a folder tree, built with the setters. */
  method Build(t: Tree) returns (m: Folders)
    ensures m.Valid() && fresh(m.Repr) && m.tree == t
    decreases t
  {
    m := new Folders();
    m.SetName(t.name);
    if t.root.Some? {
      m.SetRoot(t.root.value);
    }
    for i := 0 to |t.children|
      invariant m.Valid() && fresh(m.Repr)
      invariant m.tree == Tree(t.name, t.root, t.children[..i])
    {
      var child := Build(t.children[i]);
      m.AddChild(child);
    }
  }

  /** Serializing and reading back gives an equal tree, whenever serializing succeeds. */
  method Copy(m: Folders) returns (r: Option<Folders>)
    requires m.Valid()
    ensures r.Some? <==> Fits(m.tree)
    ensures r.Some? ==> r.value.Valid() && fresh(r.value.Repr) && r.value.tree == m.tree
  {
    var bytes :- m.SerializeBinary();
    RoundTrip(m.tree);
    r := Folders.DeserializeBinary(bytes);
  }
}
