/** What the bytes of `Files` and `Files.File` messages mean: a name, and a list of names. */
module FileList {
  import opened Wrappers
  import opened Wire

  // ----- File -----

  function InterpretFile(name: Bytes, rs: seq<Record>): Option<Bytes> {
    var names := OfField(rs, 1);
    if Delimiteds(names) then Some(LastPayload(names, name)) else None
  }

  function DecodeFile(s: Bytes): Option<Bytes> {
    DecodeInto(InterpretFile, [], s)
  }

  lemma InterpretFileConcat(name: Bytes, a: seq<Record>, b: seq<Record>)
    ensures InterpretFile(name, a + b) == match InterpretFile(name, a)
      case None => None
      case Some(u) => InterpretFile(u, b)
  {
    hide OfField;
    OfFieldConcat(a, b, 1);
    InPieces(OfField(a, 1), OfField(b, 1));
  }

  lemma InterpretFileOne(name: Bytes, r: Record)
    ensures InterpretFile(name, [r]) ==
      if r.field != 1 then Some(name) else if r.Delimited? then Some(r.payload) else None
  {
    HeadRecords([r], r.field);
  }

  // ----- Files -----

  function FileNames(qs: seq<Record>): (r: Option<seq<Bytes>>)
    requires Delimiteds(qs)
  {
    if qs == [] then Some([])
    else match (DecodeFile(qs[0].payload), FileNames(qs[1..]))
      case (Some(f), Some(fs)) => Some([f] + fs)
      case _ => None
  }

  function Interpret(files: seq<Bytes>, rs: seq<Record>): Option<seq<Bytes>> {
    var items := OfField(rs, 1);
    if !Delimiteds(items) then None
    else match FileNames(items)
      case None => None
      case Some(fs) => Some(files + fs)
  }

  function Decode(s: Bytes): Option<seq<Bytes>> {
    DecodeInto(Interpret, [], s)
  }

  lemma {:induction false} FileNamesConcat(a: seq<Record>, b: seq<Record>)
    requires Delimiteds(a) && Delimiteds(b)
    ensures Delimiteds(a + b)
    ensures FileNames(a + b) == match (FileNames(a), FileNames(b))
      case (Some(x), Some(y)) => Some(x + y)
      case _ => None
    decreases |a|
  {
    hide DecodeFile;
    InPieces(a, b);
    if a == [] {
      assert a + b == b;
      if FileNames(b).Some? {
        assert [] + FileNames(b).value == FileNames(b).value;
      }
    } else {
      FileNamesConcat(a[1..], b);
      assert (a + b)[1..] == a[1..] + b;
      if DecodeFile(a[0].payload).Some? && FileNames(a[1..]).Some? && FileNames(b).Some? {
        var f, x, y := DecodeFile(a[0].payload).value, FileNames(a[1..]).value, FileNames(b).value;
        assert [f] + (x + y) == ([f] + x) + y;
      }
    }
  }

  /** Decoding `a + b` is decoding `a`, then appending what `b` holds. */
  lemma InterpretConcat(files: seq<Bytes>, a: seq<Record>, b: seq<Record>)
    ensures Interpret(files, a + b) == match Interpret(files, a)
      case None => None
      case Some(u) => Interpret(u, b)
  {
    hide OfField, FileNames;
    OfFieldConcat(a, b, 1);
    var x, y := OfField(a, 1), OfField(b, 1);
    InPieces(x, y);
    if Delimiteds(x) && Delimiteds(y) {
      FileNamesConcat(x, y);
      if FileNames(x).Some? && FileNames(y).Some? {
        assert files + (FileNames(x).value + FileNames(y).value) == (files + FileNames(x).value) + FileNames(y).value;
      }
    }
  }

  lemma InterpretNothing(files: seq<Bytes>)
    ensures Interpret(files, []) == Some(files) && InterpretFile([], []) == Some([])
  {
    ScanNothing();
    assert files + [] == files;
  }

  lemma InterpretOne(files: seq<Bytes>, r: Record)
    ensures Interpret(files, [r]) ==
      if r.field != 1 then Some(files)
      else if !r.Delimited? then None
      else (match DecodeFile(r.payload) case None => None case Some(f) => Some(files + [f]))
  {
    hide DecodeFile;
    HeadRecords([r], r.field);
    assert files + [] == files;
    if r.field == 1 && r.Delimited? {
      assert [r][1..] == [] && FileNames([]) == Some([]);
      if DecodeFile(r.payload).Some? {
        assert [DecodeFile(r.payload).value] + [] == [DecodeFile(r.payload).value];
      }
    }
  }

  lemma BothDistribute()
    ensures Distributes(InterpretFile) && Distributes(Interpret)
  {
    hide Interpret, InterpretFile;
    forall m, a, b ensures InterpretFile(m, a + b) == Then(InterpretFile, InterpretFile(m, a), b) {
      InterpretFileConcat(m, a, b);
    }
    forall m, a, b ensures Interpret(m, a + b) == Then(Interpret, Interpret(m, a), b) {
      InterpretConcat(m, a, b);
    }
  }

  // ----- The canonical encoding -----

  /** An empty name is left out, so an unnamed file is an empty message. */
  function EncodeFile(name: Bytes): Bytes {
    if |name| > 0 then Print(Delimited(1, name)) else []
  }

  function EncodedFiles(files: seq<Bytes>): (ps: seq<Bytes>)
    ensures |ps| == |files| && forall i | 0 <= i < |files| :: ps[i] == EncodeFile(files[i])
  {
    seq(|files|, i requires 0 <= i < |files| => EncodeFile(files[i]))
  }

  /** Every file is written, as a submessage that may be empty. */
  function Encode(files: seq<Bytes>): Bytes {
    PrintAll(Elements(1, EncodedFiles(files)))
  }

  predicate FileFits(name: Bytes) {
    |name| < TWO_TO_THE_32 && |EncodeFile(name)| < TWO_TO_THE_32
  }

  predicate Fits(files: seq<Bytes>) {
    forall f <- files :: FileFits(f)
  }

  lemma FileRoundTrip(name: Bytes)
    requires |name| < TWO_TO_THE_32
    ensures DecodeFile(EncodeFile(name)) == Some(name)
  {
    var rs := if |name| > 0 then [Delimited(1, name)] else [];
    ScanPrinted(rs);
    PrintOne(Delimited(1, name));
    HeadRecords(rs, 1);
  }

  // ----- Every conforming encoder is undone -----

  /**
   * Well-formed records that carry the list: for each file, in order, one submessage that carries
   * its name; fields the schema does not know may stand anywhere.
   */
  ghost predicate Carries(rs: seq<Record>, files: seq<Bytes>) {
    var items := OfField(rs, 1);
    && (forall r <- rs :: WellFormed(r))
    && Delimiteds(items) && |items| == |files|
    && forall i | 0 <= i < |items| :: EncodesFile(items[i].payload, files[i])
  }

  ghost predicate EncodesFile(s: Bytes, name: Bytes) {
    exists rs :: CarriesName(rs, name) && s == PrintAll(rs)
  }

  ghost predicate CarriesName(rs: seq<Record>, name: Bytes) {
    && (forall r <- rs :: WellFormed(r))
    && Delimiteds(OfField(rs, 1)) && LastPayload(OfField(rs, 1), []) == name
  }

  lemma DecodeEncodesFile(s: Bytes, name: Bytes)
    requires EncodesFile(s, name)
    ensures DecodeFile(s) == Some(name)
  {
    var rs :| CarriesName(rs, name) && s == PrintAll(rs);
    hide OfField, WellFormed;
    ScanPrinted(rs);
  }

  lemma {:induction false} FileNamesCarried(items: seq<Record>, files: seq<Bytes>)
    requires Delimiteds(items) && |items| == |files|
    requires forall i | 0 <= i < |items| :: EncodesFile(items[i].payload, files[i])
    ensures FileNames(items) == Some(files)
    decreases |items|
  {
    hide DecodeFile, EncodesFile;
    if items != [] {
      DecodeEncodesFile(items[0].payload, files[0]);
      FileNamesCarried(items[1..], files[1..]);
      assert files == [files[0]] + files[1..];
    }
  }

  /** Decoding yields the list that was encoded: same count, same order, empty names included. */
  lemma DecodeCarries(rs: seq<Record>, files: seq<Bytes>)
    requires Carries(rs, files)
    ensures Decode(PrintAll(rs)) == Some(files)
  {
    hide FileNames, OfField, EncodesFile, PrintAll, WellFormed;
    ScanPrinted(rs);
    FileNamesCarried(OfField(rs, 1), files);
    assert [] + files == files;
  }

  lemma FileConforms(name: Bytes)
    requires |name| < TWO_TO_THE_32
    ensures EncodesFile(EncodeFile(name), name)
  {
    var rs := if |name| > 0 then [Delimited(1, name)] else [];
    PrintOne(Delimited(1, name));
    HeadRecords(rs, 1);
    assert CarriesName(rs, name) && EncodeFile(name) == PrintAll(rs);
  }

  lemma RoundTrip(files: seq<Bytes>)
    requires Fits(files)
    ensures Decode(Encode(files)) == Some(files)
  {
    hide OfField, EncodesFile, EncodeFile, PrintAll;
    var rs := Elements(1, EncodedFiles(files));
    ElementsOfField(1, EncodedFiles(files));
    forall i | 0 <= i < |files| ensures EncodesFile(rs[i].payload, files[i]) && WellFormed(rs[i]) {
      assert files[i] in files;
      FileConforms(files[i]);
    }
    DecodeCarries(rs, files);
  }
}
