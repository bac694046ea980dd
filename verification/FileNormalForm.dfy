/** Reading a list of files and writing it back: never longer, and read back unchanged. */
module FileNormalForm {
  import opened FileList
  import opened ShortForm
  import opened Wire
  import opened Wrappers

  lemma NameNotLonger(s: Bytes, name: Bytes)
    requires |s| < TWO_TO_THE_32 && DecodeFile(s) == Some(name)
    ensures FileFits(name) && |EncodeFile(name)| <= |s|
  {
    hide Scan, OfField, Print;
    var rs := Scan(s).rs;
    var qs := OfField(rs, 1);
    PrintedNotLonger(s);
    FieldsNotLonger(rs, 1);
    LengthUpToMonotone(rs, 1, 1);
    OfFieldIn(rs, 1);
    if qs != [] {
      MemberNotLonger(qs, qs[|qs| - 1]);
      PrintDelimited(1, name);
    }
  }

  lemma {:induction false} NamesNotLonger(items: seq<Record>, files: seq<Bytes>)
    requires Delimiteds(items) && (forall q <- items :: q.field == 1) && FileNames(items) == Some(files)
    requires |PrintAll(items)| < TWO_TO_THE_32
    ensures Fits(files) && |PrintAll(Elements(1, EncodedFiles(files)))| <= |PrintAll(items)|
    decreases |items|
  {
    hide DecodeFile, EncodeFile, Print, FileFits;
    if items != [] {
      var p, f := items[0].payload, files[0];
      assert files[1..] == FileNames(items[1..]).value;
      PrintDelimited(1, p);
      PrintDelimited(1, EncodeFile(f));
      NameNotLonger(p, f);
      VarintMonotone(|EncodeFile(f)|, |p|);
      NamesNotLonger(items[1..], files[1..]);
      assert Elements(1, EncodedFiles(files))[1..] == Elements(1, EncodedFiles(files[1..]));
      assert files == [f] + files[1..];
    }
  }

  /** For every input below 2^32 bytes that decodes; count, order and empty names are kept. */
  lemma Normalises(s: Bytes)
    requires |s| < TWO_TO_THE_32 && Decode(s).Some?
    ensures var files := Decode(s).value;
      Fits(files) && |Encode(files)| <= |s| && Decode(Encode(files)) == Some(files)
  {
    hide Scan, OfField, FileNames, PrintAll, Fits, LengthUpTo;
    var rs, files := Scan(s).rs, Decode(s).value;
    var items := OfField(rs, 1);
    PrintedNotLonger(s);
    FieldsNotLonger(rs, 1);
    LengthUpToMonotone(rs, 1, 1);
    OfFieldIn(rs, 1);
    assert Decode(s) == Interpret([], rs);
    var names := FileNames(items).value;
    assert [] + names == names;
    NamesNotLonger(items, files);
    RoundTrip(files);
  }
}
