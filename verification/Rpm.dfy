/** The generated `RPM` message class: sixteen fields set or appended to in place. */
module RpmApi {
  import opened Wrappers
  import opened Wire
  import opened BinaryIO
  import opened JsNumber
  import opened RpmFields

  class RPM {
    var name: Bytes
    var version: Bytes
    var release: Bytes
    var architecture: Bytes
    var distribution: Bytes
    var groups: seq<Bytes>
    var size: nat
    var license: Bytes
    var source: seq<Bytes>
    var buildTime: Bytes
    var buildHost: Bytes
    var vendor: Bytes
    var packager: Bytes
    var url: Bytes
    var summary: Bytes
    var description: Bytes

    function Value(): Package
      reads this
    {
      Package(name, version, release, architecture, distribution, groups, size, license, source,
              buildTime, buildHost, vendor, packager, url, summary, description)
    }

    constructor (m: Package)
      ensures Value() == m
    {
      name, version, release, architecture := m.name, m.version, m.release, m.architecture;
      distribution, groups, size, license := m.distribution, m.groups, m.size, m.license;
      source, buildTime, buildHost, vendor := m.source, m.buildTime, m.buildHost, m.vendor;
      packager, url, summary, description := m.packager, m.url, m.summary, m.description;
    }

    /** Writes the fields in the order of their numbers, leaving out defaults. */
    method Serialize(writer: BinaryWriter) returns (o: Option<()>)
      modifies writer
      ensures o.Some? <==> Fits(Value())
      ensures o.Some? ==> writer.out == old(writer.out) + Encode(Value())
    {
      hide PrintAll, RecordsUpTo, FieldFits, FieldRecords;
      ghost var m, out := Value(), writer.out;
      NothingWritten(m);
      var _ :- WriteString(writer, 1, name, m, out);
      var _ :- WriteString(writer, 2, version, m, out);
      var _ :- WriteString(writer, 3, release, m, out);
      var _ :- WriteString(writer, 4, architecture, m, out);
      var _ :- WriteString(writer, 5, distribution, m, out);
      var _ :- WriteRepeated(writer, 6, groups, m, out);
      var _ :- WriteSize(writer, size, m, out);
      var _ :- WriteString(writer, 8, license, m, out);
      var _ :- WriteRepeated(writer, 9, source, m, out);
      var _ :- WriteString(writer, 10, buildTime, m, out);
      var _ :- WriteString(writer, 11, buildHost, m, out);
      var _ :- WriteString(writer, 12, vendor, m, out);
      var _ :- WriteString(writer, 13, packager, m, out);
      var _ :- WriteString(writer, 14, url, m, out);
      var _ :- WriteString(writer, 15, summary, m, out);
      var _ :- WriteString(writer, 16, description, m, out);
      AllFit(m);
      return Some(());
    }

    static method WriteString(writer: BinaryWriter, field: nat, value: Bytes, ghost m: Package, ghost out: Bytes)
        returns (o: Option<()>)
      requires Singular(field) && StrOf(m, field) == value
      requires writer.out == out + PrintAll(RecordsUpTo(m, field - 1))
      modifies writer
      ensures o.Some? <==> FieldFits(m, field)
      ensures o.Some? ==> writer.out == out + PrintAll(RecordsUpTo(m, field))
    {
      hide Print, RecordsUpTo;
      WrittenUpTo(m, field);
      PrintOne(Delimited(field, value));
      if |value| > 0 {
        o := writer.WriteString(field, value);
      } else {
        o := Some(());
      }
    }

    static method WriteRepeated(writer: BinaryWriter, field: nat, values: seq<Bytes>,
                                ghost m: Package, ghost out: Bytes)
        returns (o: Option<()>)
      requires (field == 6 && values == m.groups) || (field == 9 && values == m.source)
      requires writer.out == out + PrintAll(RecordsUpTo(m, field - 1))
      modifies writer
      ensures o.Some? <==> FieldFits(m, field)
      ensures o.Some? ==> writer.out == out + PrintAll(RecordsUpTo(m, field))
    {
      hide Print, RecordsUpTo;
      WrittenUpTo(m, field);
      if |values| > 0 {
        o := writer.WriteRepeatedString(field, values);
      } else {
        o := Some(());
      }
    }

    static method WriteSize(writer: BinaryWriter, value: nat, ghost m: Package, ghost out: Bytes)
        returns (o: Option<()>)
      requires value == m.size
      requires writer.out == out + PrintAll(RecordsUpTo(m, 6))
      modifies writer
      ensures o.Some? <==> FieldFits(m, 7)
      ensures o.Some? ==> writer.out == out + PrintAll(RecordsUpTo(m, 7))
    {
      hide Print, RecordsUpTo;
      WrittenUpTo(m, 7);
      PrintOne(Varint(7, value));
      if value != 0 {
        o := writer.WriteUint64(7, value);
      } else {
        o := Some(());
      }
    }

    method SerializeBinary() returns (r: Option<Bytes>)
      ensures r == if Fits(Value()) then Some(Encode(Value())) else None
    {
      hide Encode, Fits;
      var writer := new BinaryWriter();
      var o := Serialize(writer);
      assert [] + Encode(Value()) == Encode(Value());
      return if o.Some? then Some(writer.out) else None;
    }

    /** The body of the decoding loop: the `switch` on the field number just read. */
    method ReadField(reader: BinaryReader) returns (o: Option<()>)
      requires reader.Valid()
      modifies this, reader
      ensures reader.Valid() && old(reader.cursor) <= reader.cursor
      ensures o.Some? <==> old(reader.Here()).Got? && Interpret(old(Value()), [old(reader.Here()).value]).Some?
      ensures o.Some? ==> && Interpret(old(Value()), [old(reader.Here()).value]) == Some(Value())
                          && reader.cursor == old(reader.cursor) + old(reader.Here()).size
                          && reader.limit == old(reader.limit)
    {
      ghost var here, m := reader.Here(), Value();
      if here.Got? {
        InterpretOne(m, here.value);
      }
      hide Interpret, ValueAt, ToNumber;
      if reader.field == 7 {
        var v :- reader.ReadUint64();
        size := ToNumber(v);
      } else if 1 <= reader.field <= 16 {
        var v :- reader.ReadString();
        SetString(reader.field, v);
      } else {
        var _ :- reader.SkipField();
      }
      return Some(());
    }

    /** What the cases of the `switch` that begin with `readString` do with the string. */
    method SetString(field: nat, v: Bytes)
      requires 1 <= field <= 16 && field != 7
      modifies this
      ensures Interpret(old(Value()), [Delimited(field, v)]) == Some(Value())
    {
      InterpretOne(Value(), Delimited(field, v));
      hide Interpret;
      match field {
        case 1 => name := v;
        case 2 => version := v;
        case 3 => release := v;
        case 4 => architecture := v;
        case 5 => distribution := v;
        case 6 => groups := groups + [v];
        case 8 => license := v;
        case 9 => source := source + [v];
        case 10 => buildTime := v;
        case 11 => buildHost := v;
        case 12 => vendor := v;
        case 13 => packager := v;
        case 14 => url := v;
        case 15 => summary := v;
        case 16 => description := v;
      }
    }

    static method Deserialize(reader: BinaryReader) returns (r: Option<RPM>)
      requires reader.Valid()
      modifies reader
      ensures reader.Valid() && old(reader.cursor) <= reader.cursor
      ensures r.Some? <==> Decode(old(reader.Rest())).Some?
      ensures r.Some? ==> && fresh(r.value) && Some(r.value.Value()) == Decode(old(reader.Rest()))
                          && reader.limit == old(reader.limit)
                          && (Whole(old(reader.Rest())) ==> reader.cursor == reader.limit)
    {
      hide Interpret, ValueAt, TagAt, Scan, Distributes, Then;
      ghost var input, done := reader.Rest(), [];
      var message := new RPM(BLANK);
      InterpretNothing(BLANK);
      InterpretDistributes();
      while true
        invariant reader.Valid() && old(reader.cursor) <= reader.cursor && reader.limit == old(reader.limit)
        invariant fresh(message)
        invariant Scan(input) == Prepend(done, Scan(reader.Rest()))
        invariant Interpret(BLANK, done) == Some(message.Value())
        decreases reader.limit - reader.cursor
      {
        ghost var rest, m := reader.Rest(), message.Value();
        var more :- reader.NextField();
        if !more || reader.wire == 4 {
          ScanEnds(input, done, rest);
          break;
        }
        ghost var n, here := TagAt(rest).size, reader.Here();
        assert reader.Rest() == rest[n..];
        if here.Got? {
          DecodeStep(Interpret, BLANK, input, done, rest, m);
          done := done + [here.value];
        } else {
          ScanFails(input, done, rest);
        }
        var _ :- message.ReadField(reader);
        assert reader.Rest() == rest[n + here.size..];
      }
      return Some(message);
    }

    static method DeserializeBinary(bytes: Bytes) returns (r: Option<RPM>)
      ensures r.Some? <==> Decode(bytes).Some?
      ensures r.Some? ==> fresh(r.value) && Some(r.value.Value()) == Decode(bytes)
    {
      var reader := new BinaryReader(bytes);
      r := Deserialize(reader);
    }
  }
}
