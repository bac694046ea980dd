/**
 * The server's directory listings (`GetFolders`, `GetFiles`) and what a client decodes from them,
 * whichever conforming encoder carried them.
 */
module Listing {
  import opened Wrappers
  import opened Wire
  import FolderTree
  import FolderTheorems
  import FileList

  datatype FileInfo = FileInfo(name: Bytes, isDir: bool)

  function Ascii(s: string): Bytes
    requires forall i | 0 <= i < |s| :: s[i] < 128 as char
  {
    seq<Byte>(|s|, i requires 0 <= i < |s| => s[i] as int)
  }

  /** The architectures that are shown. */
  const NO_SKIP: seq<Bytes> := [Ascii("noarch"), Ascii("x86_64"), Ascii("x86_64-i586")]

  function FolderOf(f: FileInfo): seq<Bytes> {
    if f.isDir && f.name in NO_SKIP then [f.name] else []
  }

  function FileOf(f: FileInfo): seq<Bytes> {
    if !f.isDir then [f.name] else []
  }

  /** The names of the whitelisted directories, in listing order. */
  function ShownFolders(listing: seq<FileInfo>): seq<Bytes> {
    if listing == [] then [] else FolderOf(listing[0]) + ShownFolders(listing[1..])
  }

  /** The names of the entries that are not directories, in listing order. */
  function ShownFiles(listing: seq<FileInfo>): seq<Bytes> {
    if listing == [] then [] else FileOf(listing[0]) + ShownFiles(listing[1..])
  }

  function Leaves(names: seq<Bytes>): (ts: seq<FolderTree.Tree>)
    ensures |ts| == |names| && forall i | 0 <= i < |names| :: ts[i] == FolderTree.Tree(names[i], None, [])
  {
    seq(|names|, i requires 0 <= i < |names| => FolderTree.Tree(names[i], None, []))
  }

  function ChildNames(t: FolderTree.Tree): (names: seq<Bytes>)
    ensures |names| == |t.children| && forall i | 0 <= i < |names| :: names[i] == t.children[i].name
  {
    seq(|t.children|, i requires 0 <= i < |t.children| => t.children[i].name)
  }

  /** What is shown of a listing is what is shown of its parts, in order. */
  lemma {:induction false} ShownConcat(a: seq<FileInfo>, b: seq<FileInfo>)
    ensures ShownFolders(a + b) == ShownFolders(a) + ShownFolders(b)
    ensures ShownFiles(a + b) == ShownFiles(a) + ShownFiles(b)
    decreases |a|
  {
    hide FolderOf, FileOf;
    if a == [] {
      assert a + b == b;
    } else {
      var rest := a[1..];
      ShownConcat(rest, b);
      assert (a + b)[0] == a[0] && (a + b)[1..] == rest + b;
      assert ShownFolders(a + b) == FolderOf(a[0]) + ShownFolders(rest + b);
      assert ShownFiles(a + b) == FileOf(a[0]) + ShownFiles(rest + b);
    }
  }

  lemma ShownSnoc(listing: seq<FileInfo>, i: nat)
    requires i < |listing|
    ensures ShownFolders(listing[..i + 1]) == ShownFolders(listing[..i]) + FolderOf(listing[i])
    ensures ShownFiles(listing[..i + 1]) == ShownFiles(listing[..i]) + FileOf(listing[i])
  {
    hide FolderOf, FileOf;
    var x := [listing[i]];
    assert listing[..i + 1] == listing[..i] + x;
    assert x[1..] == [];
    ShownConcat(listing[..i], x);
  }

  // ----- Exactly which entries, once each, in listing order -----

  predicate Increasing(ks: seq<nat>) {
    forall i, j | 0 <= i < j < |ks| :: ks[i] < ks[j]
  }

  /** `names` are the names of the entries at the positions `ks` of the listing, in order. */
  predicate NamesAt(listing: seq<FileInfo>, ks: seq<nat>, names: seq<Bytes>) {
    && Increasing(ks) && |names| == |ks|
    && forall i | 0 <= i < |ks| :: ks[i] < |listing| && names[i] == listing[ks[i]].name
  }

  /** The names of all entries that are not directories, and of nothing else. */
  ghost predicate NonDirectories(listing: seq<FileInfo>, names: seq<Bytes>) {
    exists ks :: NamesAt(listing, ks, names) && forall k: nat | k < |listing| :: k in ks <==> !listing[k].isDir
  }

  /** The names of all directories of the three architectures, and of nothing else. */
  ghost predicate ArchDirectories(listing: seq<FileInfo>, names: seq<Bytes>) {
    exists ks :: NamesAt(listing, ks, names) && forall k: nat | k < |listing| ::
      k in ks <==> listing[k].isDir && (listing[k].name == Ascii("noarch") || listing[k].name == Ascii("x86_64")
                                        || listing[k].name == Ascii("x86_64-i586"))
  }

  lemma NamesAtSnoc(listing: seq<FileInfo>, ks: seq<nat>, names: seq<Bytes>, f: FileInfo)
    requires NamesAt(listing, ks, names)
    ensures NamesAt(listing + [f], ks, names)
    ensures NamesAt(listing + [f], ks + [|listing|], names + [f.name])
  {
    assert forall k <- ks :: (listing + [f])[k] == listing[k];
    assert forall k <- ks + [|listing|] :: k < |listing| + 1;
  }

  lemma {:induction false} ShownFilesExact(listing: seq<FileInfo>) returns (ks: seq<nat>)
    ensures NamesAt(listing, ks, ShownFiles(listing))
    ensures forall k: nat | k < |listing| :: k in ks <==> !listing[k].isDir
    decreases |listing|
  {
    hide NamesAt, ShownFiles;
    if listing == [] {
      ks := [];
      NothingShown();
    } else {
      var n := |listing| - 1;
      var before, f := listing[..n], listing[n];
      var js := ShownFilesExact(before);
      assert listing == before + [f];
      ShownSnoc(listing, n);
      assert listing[..n + 1] == listing;
      NamesAtSnoc(before, js, ShownFiles(before), f);
      InRange(before, js, ShownFiles(before));
      assert ShownFiles(before) + [] == ShownFiles(before);
      ks := if f.isDir then js else js + [n];
    }
  }

  lemma {:induction false} ShownFoldersExact(listing: seq<FileInfo>) returns (ks: seq<nat>)
    ensures NamesAt(listing, ks, ShownFolders(listing))
    ensures forall k: nat | k < |listing| ::
      k in ks <==> listing[k].isDir && (listing[k].name == Ascii("noarch") || listing[k].name == Ascii("x86_64")
                                        || listing[k].name == Ascii("x86_64-i586"))
    decreases |listing|
  {
    hide NamesAt, ShownFolders, Ascii;
    if listing == [] {
      ks := [];
      NothingShown();
    } else {
      var n := |listing| - 1;
      var before, f := listing[..n], listing[n];
      var js := ShownFoldersExact(before);
      assert listing == before + [f];
      ShownSnoc(listing, n);
      assert listing[..n + 1] == listing;
      NamesAtSnoc(before, js, ShownFolders(before), f);
      InRange(before, js, ShownFolders(before));
      assert ShownFolders(before) + [] == ShownFolders(before);
      ks := if f.isDir && f.name in NO_SKIP then js + [n] else js;
    }
  }

  lemma InRange(listing: seq<FileInfo>, ks: seq<nat>, names: seq<Bytes>)
    requires NamesAt(listing, ks, names)
    ensures forall k <- ks :: k < |listing|
  {
  }

  lemma NothingShown()
    ensures ShownFiles([]) == [] && ShownFolders([]) == [] && NamesAt([], [], [])
  {
  }

  /** The tree that is marshalled; None when the directory cannot be read. */
  method GetFolders(listing: Option<seq<FileInfo>>, repoName: Bytes) returns (r: Option<FolderTree.Tree>)
    ensures r.None? <==> listing.None?
    ensures r.Some? ==> r.value == FolderTree.Tree(repoName, Some(true), Leaves(ShownFolders(listing.value)))
    ensures r.Some? ==> && r.value.name == repoName && r.value.root == Some(true)
                        && ArchDirectories(listing.value, ChildNames(r.value))
                        && forall c <- r.value.children :: c.root == None && c.children == []
  {
    var obj :- listing;
    var files := FolderTree.Tree(repoName, Some(true), []);
    for i := 0 to |obj|
      invariant files == FolderTree.Tree(repoName, Some(true), Leaves(ShownFolders(obj[..i])))
    {
      ShownSnoc(obj, i);
      if obj[i].isDir {
        var name := obj[i].name;
        if name in NO_SKIP {
          files := files.(children := files.children + [FolderTree.Tree(name, None, [])]);
        }
      }
    }
    assert obj[..|obj|] == obj;
    ghost var ks := ShownFoldersExact(obj);
    assert ChildNames(files) == ShownFolders(obj);
    return Some(files);
  }

  /** The list that is marshalled; None when the directory cannot be read. */
  method GetFiles(listing: Option<seq<FileInfo>>) returns (r: Option<seq<Bytes>>)
    ensures r.None? <==> listing.None?
    ensures r.Some? ==> r.value == ShownFiles(listing.value)
    ensures r.Some? ==> NonDirectories(listing.value, r.value)
  {
    var obj :- listing;
    var files := [];
    for i := 0 to |obj|
      invariant files == ShownFiles(obj[..i])
    {
      ShownSnoc(obj, i);
      if !obj[i].isDir {
        files := files + [obj[i].name];
      }
    }
    assert obj[..|obj|] == obj;
    ghost var ks := ShownFilesExact(obj);
    return Some(files);
  }

  /**
   * What the client decodes is the server's listing: the repository name, `root` true, and one
   * leaf per whitelisted directory, in order, from any conforming encoding.
   */
  lemma FoldersArrive(listing: seq<FileInfo>, repoName: Bytes, sent: Bytes)
    requires FolderTheorems.Encodes(sent, FolderTree.Tree(repoName, Some(true), Leaves(ShownFolders(listing))))
    ensures FolderTree.Decode(sent).Some?
    ensures var t := FolderTree.Decode(sent).value;
      && t.name == repoName && t.root == Some(true)
      && ChildNames(t) == ShownFolders(listing) && ArchDirectories(listing, ChildNames(t))
      && forall c <- t.children :: c.root == None && c.children == []
  {
    hide FolderTree.Decode, FolderTheorems.Encodes;
    FolderTheorems.DecodeEncodes(sent, FolderTree.Tree(repoName, Some(true), Leaves(ShownFolders(listing))));
    var ks := ShownFoldersExact(listing);
    assert ChildNames(FolderTree.Decode(sent).value) == ShownFolders(listing);
  }

  /** The same for files: exactly the non-directories, count and order kept even for empty names. */
  lemma FilesArrive(listing: seq<FileInfo>, rs: seq<Record>)
    requires FileList.Carries(rs, ShownFiles(listing))
    ensures FileList.Decode(PrintAll(rs)) == Some(ShownFiles(listing))
    ensures NonDirectories(listing, FileList.Decode(PrintAll(rs)).value)
  {
    hide FileList.Decode, FileList.Carries;
    FileList.DecodeCarries(rs, ShownFiles(listing));
    var ks := ShownFilesExact(listing);
  }
}
