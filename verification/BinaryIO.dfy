/**
 * The reader and writer that the message classes share. The library that implements them is not
 * part of the repository; each method does what the Encoding guide says, one Wire function at the
 * cursor. A read that the library would answer with an exception returns None.
 */
module BinaryIO {
  import opened Wrappers
  import opened Wire

  /** A cursor into a buffer, never past `limit`: the end of the message being read. */
  class BinaryReader {
    const buffer: Bytes
    var cursor: nat
    var limit: nat
    var field: nat
    var wire: nat

    ghost predicate Valid()
      reads this
    {
      cursor <= limit <= |buffer|
    }

    /** The unread bytes of the current message. */
    function Rest(): Bytes
      requires Valid()
      reads this
    {
      buffer[cursor..limit]
    }

    /** The record whose tag was read last. */
    function Here(): Read<Record>
      requires Valid()
      reads this
    {
      ValueAt(Rest(), Tag(field, wire))
    }

    constructor (bytes: Bytes)
      ensures Valid() && buffer == bytes && Rest() == bytes && cursor == 0
    {
      buffer, cursor, limit, field, wire := bytes, 0, |bytes|, 0, 0;
    }

    /** Some(false) at the end of the message, Some(true) after a tag, None for a bad tag. */
    method NextField() returns (r: Option<bool>)
      requires Valid()
      modifies `cursor, `field, `wire
      ensures Valid() && old(cursor) <= cursor
      ensures r == Some(false) <==> old(Rest()) == []
      ensures r == Some(false) ==> cursor == old(cursor)
      ensures r == Some(true) ==> TagAt(old(Rest())) == Got(Tag(field, wire), cursor - old(cursor)) && wire <= 5
      ensures r == None ==> Scan(old(Rest())).Malformed?
    {
      if cursor == limit {
        return Some(false);
      }
      match TagAt(Rest())
      case Bad => return None;
      case Got(t, n) =>
        if t.wire > 5 {
          return None;
        }
        cursor, field, wire := cursor + n, t.field, t.wire;
        return Some(true);
    }

    method ReadString() returns (r: Option<Bytes>)
      requires Valid()
      modifies `cursor
      ensures Valid() && old(cursor) <= cursor
      ensures r.Some? ==> old(Here()) == Got(Delimited(field, r.value), cursor - old(cursor))
      ensures r.None? ==> old(Here()).Bad? || !old(Here()).value.Delimited?
    {
      if wire != 2 {
        return None;
      }
      match PayloadAt(Rest())
      case Bad => return None;
      case Got(p, n) =>
        cursor := cursor + n;
        return Some(p);
    }

    method ReadUint64() returns (r: Option<nat>)
      requires Valid()
      modifies `cursor
      ensures Valid() && old(cursor) <= cursor
      ensures r.Some? ==> old(Here()) == Got(Varint(field, r.value), cursor - old(cursor))
      ensures r.None? ==> old(Here()).Bad? || !old(Here()).value.Varint?
    {
      if wire != 0 {
        return None;
      }
      match VarintAt(Rest())
      case Bad => return None;
      case Got(v, n) =>
        cursor := cursor + n;
        return Some(v);
    }

    /** A bool is its varint's low 32 bits, compared with zero. */
    method ReadBool() returns (r: Option<bool>)
      requires Valid()
      modifies `cursor
      ensures Valid() && old(cursor) <= cursor
      ensures r.Some? ==>
        exists v: nat :: old(Here()) == Got(Varint(field, v), cursor - old(cursor)) && r.value == BoolOf(v)
      ensures r.None? ==> old(Here()).Bad? || !old(Here()).value.Varint?
    {
      var v :- ReadUint64();
      return Some(BoolOf(v));
    }

    /** Steps over the current record, whatever its wire type; a group with all its records. */
    method SkipField() returns (o: Option<()>)
      requires Valid()
      modifies `cursor
      ensures Valid() && old(cursor) <= cursor
      ensures o.Some? ==> old(Here()).Got? && cursor == old(cursor) + old(Here()).size
      ensures o.None? ==> old(Here()).Bad?
    {
      match Here()
      case Bad => return None;
      case Got(_, n) =>
        cursor := cursor + n;
        return Some(());
    }

    /** Narrows the limit to the submessage at the cursor; `saved` is the limit to restore. */
    method EnterMessage() returns (saved: Option<nat>)
      requires Valid()
      modifies `cursor, `limit
      ensures Valid() && old(cursor) <= cursor
      ensures saved.Some? ==> && saved.value == old(limit) && old(cursor) < cursor && limit <= old(limit)
                              && old(Here()) == Got(Delimited(field, Rest()), limit - old(cursor))
      ensures saved.None? ==> old(Here()).Bad? || !old(Here()).value.Delimited?
    {
      if wire != 2 {
        return None;
      }
      var parent := limit;
      match PayloadAt(Rest())
      case Bad => return None;
      case Got(p, n) =>
        SliceOfSlice(buffer, cursor, limit, n - |p|, n);
        cursor, limit := cursor + n - |p|, cursor + n;
        return Some(parent);
    }

    /** Moves past the submessage and restores its parent's limit. */
    method LeaveMessage(end: nat, saved: nat)
      requires end <= saved <= |buffer|
      modifies `cursor, `limit
      ensures Valid() && cursor == end && limit == saved
    {
      cursor, limit := end, saved;
    }
  }

  function BoolOf(v: nat): bool {
    v % TWO_TO_THE_32 != 0
  }

  /** An output buffer; a submessage's length is spliced in once its bytes are known. */
  class BinaryWriter {
    var out: Bytes

    constructor ()
      ensures out == []
    {
      out := [];
    }

    method WriteString(field: nat, value: Bytes) returns (o: Option<()>)
      modifies this
      ensures o.Some? <==> |value| < TWO_TO_THE_32
      ensures o.Some? ==> out == old(out) + Print(Delimited(field, value))
    {
      if |value| >= TWO_TO_THE_32 {
        return None;
      }
      out := out + PrintTag(field, 2) + EncodeVarint(|value|) + value;
      return Some(());
    }

    /** Every element is written, empty strings too. */
    method WriteRepeatedString(field: nat, values: seq<Bytes>) returns (o: Option<()>)
      modifies this
      ensures o.Some? <==> forall v <- values :: |v| < TWO_TO_THE_32
      ensures o.Some? ==> out == old(out) + PrintAll(Elements(field, values))
    {
      hide Print, PrintAll, Elements;
      PrintNothing(field);
      for i := 0 to |values|
        invariant forall j | 0 <= j < i :: |values[j]| < TWO_TO_THE_32
        invariant out == old(out) + PrintAll(Elements(field, values[..i]))
      {
        assert values[i] in values;
        var _ :- WriteString(field, values[i]);
        PrintElement(field, values, i);
      }
      assert values[..|values|] == values;
      return Some(());
    }

    method WriteBool(field: nat, value: bool)
      modifies this
      ensures out == old(out) + Print(Varint(field, if value then 1 else 0))
    {
      out := out + PrintTag(field, 0) + [if value then 1 else 0];
    }

    method WriteUint64(field: nat, value: nat) returns (o: Option<()>)
      modifies this
      ensures o.Some? <==> value < TWO_TO_THE_64
      ensures o.Some? ==> out == old(out) + Print(Varint(field, value))
    {
      if value >= TWO_TO_THE_64 {
        return None;
      }
      out := out + PrintTag(field, 0) + EncodeVarint(value);
      return Some(());
    }

    /** Writes the tag of a submessage and remembers where its length belongs. */
    method BeginDelimited(field: nat) returns (bookmark: nat)
      modifies this
      ensures out == old(out) + PrintTag(field, 2) && bookmark == |out|
    {
      out := out + PrintTag(field, 2);
      bookmark := |out|;
    }

    method EndDelimited(bookmark: nat) returns (o: Option<()>)
      requires bookmark <= |out|
      modifies this
      ensures o.Some? <==> old(|out|) - bookmark < TWO_TO_THE_32
      ensures o.Some? ==> out == old(out)[..bookmark] + EncodeVarint(old(|out|) - bookmark) + old(out)[bookmark..]
    {
      var length := |out| - bookmark;
      if length >= TWO_TO_THE_32 {
        return None;
      }
      out := out[..bookmark] + EncodeVarint(length) + out[bookmark..];
      return Some(());
    }
  }
}
