/** The generated `Files` and `Files.File` message classes. */
module FilesApi {
  import opened Wrappers
  import opened Wire
  import opened BinaryIO
  import opened FileList

  class File {
    var name: Bytes

    constructor ()
      ensures name == []
    {
      name := [];
    }

    method Serialize(writer: BinaryWriter) returns (o: Option<()>)
      modifies writer
      ensures o.Some? <==> |name| < TWO_TO_THE_32
      ensures o.Some? ==> writer.out == old(writer.out) + EncodeFile(name)
    {
      if |name| > 0 {
        var _ :- writer.WriteString(1, name);
      }
      return Some(());
    }

    /** Writes this file as an element of a `Files` message. */
    method SerializeDelimited(writer: BinaryWriter) returns (o: Option<()>)
      modifies writer
      ensures o.Some? <==> FileFits(name)
      ensures o.Some? ==> writer.out == old(writer.out) + Print(Delimited(1, EncodeFile(name)))
    {
      hide Print, EncodeFile;
      var bookmark := writer.BeginDelimited(1);
      ghost var header := writer.out;
      var _ :- Serialize(writer);
      assert writer.out[..bookmark] == header && writer.out[bookmark..] == EncodeFile(name);
      var _ :- writer.EndDelimited(bookmark);
      PrintDelimited(1, EncodeFile(name));
      return Some(());
    }

    /** The body of the decoding loop: the `switch` on the field number just read. */
    method ReadField(reader: BinaryReader) returns (o: Option<()>)
      requires reader.Valid()
      modifies this, reader
      ensures reader.Valid() && old(reader.cursor) <= reader.cursor
      ensures o.Some? <==> old(reader.Here()).Got? && InterpretFile(old(name), [old(reader.Here()).value]).Some?
      ensures o.Some? ==> && InterpretFile(old(name), [old(reader.Here()).value]) == Some(name)
                          && reader.cursor == old(reader.cursor) + old(reader.Here()).size
                          && reader.limit == old(reader.limit)
    {
      if reader.Here().Got? {
        InterpretFileOne(name, reader.Here().value);
      }
      hide InterpretFile, ValueAt;
      match reader.field {
        case 1 =>
          var value :- reader.ReadString();
          name := value;
        case _ =>
          var _ :- reader.SkipField();
      }
      return Some(());
    }

    static method Deserialize(reader: BinaryReader) returns (r: Option<File>)
      requires reader.Valid()
      modifies reader
      ensures reader.Valid() && old(reader.cursor) <= reader.cursor
      ensures r.Some? <==> DecodeFile(old(reader.Rest())).Some?
      ensures r.Some? ==> && fresh(r.value) && Some(r.value.name) == DecodeFile(old(reader.Rest()))
                          && reader.limit == old(reader.limit)
                          && (Whole(old(reader.Rest())) ==> reader.cursor == reader.limit)
    {
      hide InterpretFile, ValueAt, TagAt, Scan, Distributes, Then;
      ghost var input, done := reader.Rest(), [];
      var message := new File();
      InterpretNothing([]);
      BothDistribute();
      while true
        invariant reader.Valid() && old(reader.cursor) <= reader.cursor && reader.limit == old(reader.limit)
        invariant fresh(message)
        invariant Scan(input) == Prepend(done, Scan(reader.Rest()))
        invariant InterpretFile([], done) == Some(message.name)
        decreases reader.limit - reader.cursor
      {
        ghost var rest := reader.Rest();
        var more :- reader.NextField();
        if !more || reader.wire == 4 {
          ScanEnds(input, done, rest);
          break;
        }
        ghost var n, here := TagAt(rest).size, reader.Here();
        assert reader.Rest() == rest[n..];
        if here.Got? {
          DecodeStep(InterpretFile, [], input, done, rest, message.name);
          done := done + [here.value];
        } else {
          ScanFails(input, done, rest);
        }
        var _ :- message.ReadField(reader);
        assert reader.Rest() == rest[n + here.size..];
      }
      return Some(message);
    }
  }

  class Files {
    var files: seq<File>

    constructor ()
      ensures files == []
    {
      files := [];
    }

    ghost function Names(): (ns: seq<Bytes>)
      reads this, files
      ensures |ns| == |files| && forall i | 0 <= i < |files| :: ns[i] == files[i].name
    {
      seq(|files|, i requires 0 <= i < |files| reads this, files => files[i].name)
    }

    method Serialize(writer: BinaryWriter) returns (o: Option<()>)
      modifies writer
      ensures o.Some? <==> Fits(Names())
      ensures o.Some? ==> writer.out == old(writer.out) + Encode(Names())
    {
      hide Print, PrintAll, Elements, EncodeFile, FileFits;
      PrintNothing(1);
      ghost var ps := EncodedFiles(Names());
      for i := 0 to |files|
        invariant forall j | 0 <= j < i :: FileFits(Names()[j])
        invariant writer.out == old(writer.out) + PrintAll(Elements(1, ps[..i]))
      {
        assert Names()[i] in Names();
        var _ :- files[i].SerializeDelimited(writer);
        PrintElement(1, ps, i);
      }
      assert ps[..|files|] == ps;
      return Some(());
    }

    method SerializeBinary() returns (r: Option<Bytes>)
      ensures r == if Fits(Names()) then Some(Encode(Names())) else None
    {
      hide Encode, Fits;
      var writer := new BinaryWriter();
      var o := Serialize(writer);
      assert [] + Encode(Names()) == Encode(Names());
      return if o.Some? then Some(writer.out) else None;
    }

    /** The body of the decoding loop: the `switch` on the field number just read. */
    method ReadField(reader: BinaryReader) returns (o: Option<()>)
      requires reader.Valid()
      modifies this, reader
      ensures reader.Valid() && old(reader.cursor) <= reader.cursor
      ensures o.Some? <==> old(reader.Here()).Got? && Interpret(old(Names()), [old(reader.Here()).value]).Some?
      ensures o.Some? ==> && Interpret(old(Names()), [old(reader.Here()).value]) == Some(Names())
                          && reader.cursor == old(reader.cursor) + old(reader.Here()).size
                          && reader.limit == old(reader.limit)
                          && forall f <- files :: f in old(files) || fresh(f)
    {
      ghost var here, names := reader.Here(), Names();
      if here.Got? {
        InterpretOne(names, here.value);
      }
      hide Interpret, DecodeFile, ValueAt;
      match reader.field {
        case 1 =>
          var saved :- reader.EnterMessage();
          var end := reader.limit;
          var file :- File.Deserialize(reader);
          reader.LeaveMessage(end, saved);
          files := files + [file];
          assert Names() == names + [file.name];
        case _ =>
          var _ :- reader.SkipField();
      }
      return Some(());
    }

    static method Deserialize(reader: BinaryReader) returns (r: Option<Files>)
      requires reader.Valid()
      modifies reader
      ensures reader.Valid() && old(reader.cursor) <= reader.cursor
      ensures r.Some? <==> Decode(old(reader.Rest())).Some?
      ensures r.Some? ==> && fresh(r.value) && (forall f <- r.value.files :: fresh(f))
                          && Some(r.value.Names()) == Decode(old(reader.Rest()))
                          && reader.limit == old(reader.limit)
                          && (Whole(old(reader.Rest())) ==> reader.cursor == reader.limit)
    {
      hide Interpret, ValueAt, TagAt, Scan, Distributes, Then;
      ghost var input, done := reader.Rest(), [];
      var message := new Files();
      InterpretNothing([]);
      BothDistribute();
      assert message.Names() == [];
      while true
        invariant reader.Valid() && old(reader.cursor) <= reader.cursor && reader.limit == old(reader.limit)
        invariant fresh(message) && forall f <- message.files :: fresh(f)
        invariant Scan(input) == Prepend(done, Scan(reader.Rest()))
        invariant Interpret([], done) == Some(message.Names())
        decreases reader.limit - reader.cursor
      {
        ghost var rest, u := reader.Rest(), message.Names();
        var more :- reader.NextField();
        if !more || reader.wire == 4 {
          ScanEnds(input, done, rest);
          break;
        }
        ghost var n, here := TagAt(rest).size, reader.Here();
        assert reader.Rest() == rest[n..];
        assert message.Names() == u;
        if here.Got? {
          DecodeStep(Interpret, [], input, done, rest, u);
          done := done + [here.value];
        } else {
          ScanFails(input, done, rest);
        }
        var _ :- message.ReadField(reader);
        assert reader.Rest() == rest[n + here.size..];
      }
      return Some(message);
    }

    static method DeserializeBinary(bytes: Bytes) returns (r: Option<Files>)
      ensures r.Some? <==> Decode(bytes).Some?
      ensures r.Some? ==> && fresh(r.value) && (forall f <- r.value.files :: fresh(f))
                          && Some(r.value.Names()) == Decode(bytes)
    {
      var reader := new BinaryReader(bytes);
      r := Deserialize(reader);
    }
  }
}
