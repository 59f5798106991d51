/** UpdateServerIndex of index.py, after both indexes are loaded: for every
    branch present in both trees, the selected local packages replace their
    namesakes in the server branch, or are entered there through
    UpdatePackageEntry when the server does not list them. */
module ServerIndex {
  import opened Wrappers
  import opened Xml
  import opened PackageEntry
  import Text
  import Paths

  const Undefined: string := "NOT DEFINED!"

  /** `GetItemfromDict(GetSubElementAttributes(pkg, key), "val", default)`. */
  function ValOr(pkg: Node, key: string, default: string): string {
    GetItem(GetSubElementAttributes(pkg, key), "val", default)
  }

  /** The file name the merge looks a local package up by. */
  function ServerKey(pkg: Node): (r: string)
    ensures FileNameOf(pkg).Some? ==> r == FileNameOf(pkg).value
    ensures FileNameOf(pkg).None? ==> r == Undefined
  {
    ValOr(pkg, "FileName", Undefined)
  }

  /** The arguments handed to UpdatePackageEntry for a package the server lacks:
      three attributes and four sub-element values of the local package, and
      no language. */
  function ServerArgs(pkg: Node): EntryArgs {
    EntryArgs(Get(pkg.attrib, "platform"), Get(pkg.attrib, "minVersion"), Get(pkg.attrib, "tier"),
              ValOr(pkg, "FileSize", Undefined), ValOr(pkg, "UncompressedFileSize", Undefined),
              ValOr(pkg, "IndexFileCRC", Undefined), ServerKey(pkg), None)
  }

  /** What one local package does to a server branch. */
  function MergeOne(kids: seq<Node>, pkg: Node): seq<Node> {
    var fileName := ServerKey(pkg);
    if SearchPackages(kids, fileName) == [] then UpdateEntrySpec(kids, ServerArgs(pkg))
    else [pkg] + Unmatched(kids, fileName)
  }

  lemma UnmatchedRemoveOne(r: seq<Node>, i: nat, fileName: string)
    requires i < |r| && IsMatch(r[i], fileName)
    ensures Unmatched(r[..i] + r[i + 1..], fileName) == Unmatched(r, fileName)
  {
    assert r == r[..i] + ([r[i]] + r[i + 1..]);
    UnmatchedAppend(r[..i], [r[i]] + r[i + 1..], fileName);
    UnmatchedAppend([r[i]], r[i + 1..], fileName);
    UnmatchedAppend(r[..i], r[i + 1..], fileName);
  }

  /** One local package, as index.py processes it: enter it through
      UpdatePackageEntry, or remove every server namesake and insert it at the front. */
  method MergePackage(kids: seq<Node>, pkg: Node) returns (r: seq<Node>)
    ensures r == MergeOne(kids, pkg)
  {
    var fileName := ValOr(pkg, "FileName", Undefined);
    var serverPackages := SearchPackages(kids, fileName);
    if |serverPackages| == 0 {
      r := UpdateEntryInBranch(kids, ServerArgs(pkg));
    } else {
      r := kids;
      var i := 0;
      while i < |r|
        invariant 0 <= i <= |r|
        invariant Unmatched(r, fileName) == Unmatched(kids, fileName)
        invariant forall j :: 0 <= j < i ==> !IsMatch(r[j], fileName)
        decreases |r| - i
      {
        if IsMatch(r[i], fileName) {
          UnmatchedRemoveOne(r, i, fileName);
          r := r[..i] + r[i + 1..];
        } else {
          i := i + 1;
        }
      }
      UnmatchedNoMatch(r, fileName);
      r := [pkg] + r;
    }
  }

  /** After a named local package is processed, the server branch lists
      exactly one package under its name, at index 0, followed by every other
      child in its previous order; replacing, that package is the local one. */
  lemma MergeOneListsOnce(kids: seq<Node>, pkg: Node)
    requires pkg.tag == "Package" && FileNameOf(pkg).Some?
    ensures var r := MergeOne(kids, pkg);
      var fileName := FileNameOf(pkg).value;
      |r| > 0 && SearchPackages(r, fileName) == [r[0]] && r[1..] == Unmatched(kids, fileName)
      && (SearchPackages(kids, fileName) != [] ==> r[0] == pkg)
  {
    var fileName := FileNameOf(pkg).value;
    var r := MergeOne(kids, pkg);
    if SearchPackages(kids, fileName) == [] {
      UpdateEntryInserts(kids, ServerArgs(pkg));
      SearchPackagesEmpty(kids, fileName);
      UnmatchedNoMatch(kids, fileName);
    } else {
      var rest := Unmatched(kids, fileName);
      assert r == [pkg] + rest;
      SearchPackagesAppend([pkg], rest, fileName);
      SearchPackagesEmpty(rest, fileName);
    }
  }

  /** A package the server lacks is entered with only platform, minVersion,
      tier, the sizes, the CRC and the file name of the local one: unzip, xml,
      type, ignore and the other sub-elements take their defaults. */
  lemma MergeOneInsertsDefaults(kids: seq<Node>, pkg: Node)
    requires SearchPackages(kids, ServerKey(pkg)) == []
    ensures var n := MergeOne(kids, pkg)[0];
      n.tag == "Package"
      && n.attrib == map["platform" := GetItem(pkg.attrib, "platform", "all"), "unzip" := "false",
                         "minVersion" := GetItem(pkg.attrib, "minVersion", "4.69.0"),
                         "tier" := GetItem(pkg.attrib, "tier", "all"),
                         "xml" := "", "type" := "", "ignore" := "false"]
      && n.children == [Node("LocalDir", map["name" := "dlc"], []),
                        Node("FileSize", map["val" := ValOr(pkg, "FileSize", Undefined)], []),
                        Node("UncompressedFileSize", map["val" := ValOr(pkg, "UncompressedFileSize", Undefined)], []),
                        Node("IndexFileCRC", map["val" := ValOr(pkg, "IndexFileCRC", Undefined)], []),
                        Node("IndexFileSig", map["val" := SignatureSentinel], []),
                        Node("Version", map["val" := "1"], []),
                        Node("FileName", map["val" := ServerKey(pkg)], []),
                        Node("Language", map["val" := "all"], [])]
  {
    var a := ServerArgs(pkg);
    assert MergeOne(kids, pkg)[0] == UpdatedPackage(Node("Package", map[], []), a);
    FreshPackageAttributes(a);
    FreshPackageChildren(a);
  }

  /** Replacing is stable: when the server already lists the local
      package's file name, a second identical pass leaves the branch as the
      first one left it. */
  lemma MergeOneStableOnMatch(kids: seq<Node>, pkg: Node)
    requires IsMatch(pkg, ServerKey(pkg)) && SearchPackages(kids, ServerKey(pkg)) != []
    ensures MergeOne(MergeOne(kids, pkg), pkg) == MergeOne(kids, pkg)
  {
    var key := ServerKey(pkg);
    var rest := Unmatched(kids, key);
    assert MergeOne(kids, pkg) == [pkg] + rest;
    SearchPackagesAppend([pkg], rest, key);
    assert [pkg][1..] == [];
    assert SearchPackages([pkg], key) == [pkg];
    UnmatchedAppend([pkg], rest, key);
    assert Unmatched([pkg], key) == [];
    UnmatchedNoMatch(rest, key);
  }

  /** Entering is not stable: the second pass finds the package that
      UpdatePackageEntry built and replaces it with the local element itself. */
  lemma MergeTwiceReplacesEntered(kids: seq<Node>, pkg: Node)
    requires IsMatch(pkg, ServerKey(pkg)) && SearchPackages(kids, ServerKey(pkg)) == []
    ensures MergeOne(kids, pkg)[1..] == kids
    ensures MergeOne(MergeOne(kids, pkg), pkg) == [pkg] + kids
  {
    var key := ServerKey(pkg);
    var first := MergeOne(kids, pkg);
    UpdateEntryInserts(kids, ServerArgs(pkg));
    assert first == [first[0]] + kids;
    SearchPackagesExactly(first, key, first[0]);
    assert Unmatched([first[0]], key) == [];
    UnmatchedAppend([first[0]], kids, key);
    SearchPackagesEmpty(kids, key);
    UnmatchedNoMatch(kids, key);
  }

  /** Two identical passes need not agree: a package the server lacked is
      first entered with defaulted attributes, then replaced by the local
      element, whose attributes are its own. */
  lemma MergeTwiceDiffers()
    ensures var pkg := Node("Package", map[], [Node("FileName", map["val" := "d/x.zip"], [])]);
      MergeOne(MergeOne([], pkg), pkg) != MergeOne([], pkg)
  {
    var pkg := Node("Package", map[], [Node("FileName", map["val" := "d/x.zip"], [])]);
    assert Find(pkg.children, "FileName") == Some(0);
    assert FileNameOf(pkg) == Some("d/x.zip");
    assert SearchPackages([], ServerKey(pkg)) == [];
    MergeTwiceReplacesEntered([], pkg);
    MergeOneInsertsDefaults([], pkg);
    assert "unzip" in MergeOne([], pkg)[0].attrib;
    assert MergeOne(MergeOne([], pkg), pkg)[0] == pkg;
  }

  /** From the second pass on, repeating a pass changes nothing. */
  lemma MergeThirdPassIsSecond(kids: seq<Node>, pkg: Node)
    requires IsMatch(pkg, ServerKey(pkg))
    ensures var second := MergeOne(MergeOne(kids, pkg), pkg);
      MergeOne(second, pkg) == second
  {
    MergeOneListsOnce(kids, pkg);
    MergeOneStableOnMatch(MergeOne(kids, pkg), pkg);
  }

  /** Processing a package leaves the listing of every other file name as it was. */
  lemma MergeOneKeepsOthers(kids: seq<Node>, pkg: Node, other: string)
    requires ServerKey(pkg) != other
    ensures SearchPackages(MergeOne(kids, pkg), other) == SearchPackages(kids, other)
  {
    var fileName := ServerKey(pkg);
    var r := MergeOne(kids, pkg);
    if SearchPackages(kids, fileName) == [] {
      var a := ServerArgs(pkg);
      UpdatedPackageMatches(Node("Package", map[], []), a);
      assert r == [r[0]] + kids;
      SearchPackagesAppend([r[0]], kids, other);
    } else {
      SearchPackagesAppend([pkg], Unmatched(kids, fileName), other);
      SearchUnmatched(kids, fileName, other);
    }
  }

  /** The packages of a branch, processed in order. */
  function MergeAll(kids: seq<Node>, pkgs: seq<Node>): seq<Node>
    decreases |pkgs|
  {
    if pkgs == [] then kids else MergeAll(MergeOne(kids, pkgs[0]), pkgs[1..])
  }

  lemma {:induction false} MergeAllKeepsKey(kids: seq<Node>, pkgs: seq<Node>, fileName: string)
    requires forall k :: 0 <= k < |pkgs| ==> ServerKey(pkgs[k]) != fileName
    ensures SearchPackages(MergeAll(kids, pkgs), fileName) == SearchPackages(kids, fileName)
    decreases |pkgs|
  {
    if pkgs != [] {
      MergeOneKeepsOthers(kids, pkgs[0], fileName);
      assert forall k :: 0 <= k < |pkgs[1..]| ==> pkgs[1..][k] == pkgs[k + 1];
      MergeAllKeepsKey(MergeOne(kids, pkgs[0]), pkgs[1..], fileName);
    }
  }

  predicate AllNamedPackages(pkgs: seq<Node>) {
    forall k :: 0 <= k < |pkgs| ==> pkgs[k].tag == "Package" && FileNameOf(pkgs[k]).Some?
  }

  /** Once a branch is processed, each processed file name is listed exactly once. */
  lemma {:induction false} MergeAllListsOnce(kids: seq<Node>, pkgs: seq<Node>, j: nat)
    requires AllNamedPackages(pkgs) && j < |pkgs|
    ensures |SearchPackages(MergeAll(kids, pkgs), FileNameOf(pkgs[j]).value)| == 1
    decreases |pkgs|
  {
    var fileName := FileNameOf(pkgs[j]).value;
    var tail := pkgs[1..];
    assert forall k :: 0 <= k < |tail| ==> tail[k] == pkgs[k + 1];
    if exists k :: 0 <= k < |tail| && FileNameOf(tail[k]) == Some(fileName) {
      var k :| 0 <= k < |tail| && FileNameOf(tail[k]) == Some(fileName);
      MergeAllListsOnce(MergeOne(kids, pkgs[0]), tail, k);
    } else {
      assert j == 0;
      MergeOneListsOnce(kids, pkgs[0]);
      MergeAllKeepsKey(MergeOne(kids, pkgs[0]), tail, fileName);
    }
  }

  /** The merge of one branch, a local package at a time. */
  method MergeBranch(kids: seq<Node>, pkgs: seq<Node>) returns (r: seq<Node>)
    ensures r == MergeAll(kids, pkgs)
  {
    r := kids;
    for k := 0 to |pkgs|
      invariant MergeAll(r, pkgs[k..]) == MergeAll(kids, pkgs)
    {
      assert pkgs[k..][1..] == pkgs[k + 1..];
      r := MergePackage(r, pkgs[k]);
    }
  }

  /** `Path(FileName/@val.split(":", maxsplit=1)[-1]).stem`, an empty value when there is none. */
  function LocalStem(pkg: Node): string {
    Paths.PathStem(Text.AfterFirstColon(ValOr(pkg, "FileName", "")))
  }

  /** The local packages the merge propagates, in document order. */
  function Selected(cs: seq<Node>, names: set<string>): seq<Node> {
    if cs == [] then []
    else (if cs[0].tag == "Package" && LocalStem(cs[0]) in names then [cs[0]] else []) + Selected(cs[1..], names)
  }

  lemma {:induction false} SelectedExactly(cs: seq<Node>, names: set<string>, x: Node)
    ensures x in Selected(cs, names) <==> x in cs && x.tag == "Package" && LocalStem(x) in names
  {
    if cs != [] {
      SelectedExactly(cs[1..], names, x);
      assert cs == [cs[0]] + cs[1..];
    }
  }

  /** A stem is a bare name: a directory name given as a path with a
      separator never selects a package. */
  lemma {:induction false} SelectedNeedsBareNames(cs: seq<Node>, names: set<string>)
    requires forall n :: n in names ==> '/' in n
    ensures Selected(cs, names) == []
  {
    if cs != [] {
      Paths.PathStemHasNoSlash(Text.AfterFirstColon(ValOr(cs[0], "FileName", "")));
      SelectedNeedsBareNames(cs[1..], names);
    }
  }

  /** A package pack.py builds with revisions has the stem `<sub>-r<epoch>`,
      never the bare subdirectory name sub, so a set of bare subdirectory
      names does not select it either. */
  lemma RevisionedStemIsNotSub(pkg: Node, targetName: string, sub: string, epoch: nat)
    requires sub != "" && '/' !in sub && ':' !in sub && ':' !in targetName
    requires FileNameOf(pkg) == Some(Paths.NewFileName(targetName, sub, epoch, false, false))
    ensures LocalStem(pkg) == sub + "-r" + Text.NatToString(epoch)
    ensures LocalStem(pkg) != sub
  {
    var digits := Text.NatToString(epoch);
    var x := sub + "-r" + digits;
    var name := Paths.NewFileName(targetName, sub, epoch, false, false);
    assert name == targetName + "/" + x + ".zip";
    Paths.DigitsHaveNoSeparator(digits);
    assert ':' !in name by {
      assert forall i :: 0 <= i < |targetName| ==> name[i] == targetName[i];
      assert forall i :: |targetName| < i < |targetName| + 1 + |x| ==> name[i] == x[i - |targetName| - 1];
    }
    assert Text.AfterFirstColon(name) == name;
    assert Text.ColonsToSlashes(name) == name;
    Paths.ZipStem(targetName, x);
  }

  /** The branches in the given order; a branch missing from either tree is skipped. */
  function MergeBranches(server: Node, local: Node, names: set<string>, branches: seq<string>): Node
    decreases |branches|
  {
    if branches == [] then server
    else
      var next :=
        match (Locate(local, branches[0]), Locate(server, branches[0]))
        case (Some(l), Some(s)) =>
          WithBranchChildren(server, s, MergeAll(BranchAt(server, s).children, Selected(BranchAt(local, l).children, names)))
        case _ => server;
      MergeBranches(next, local, names, branches[1..])
  }

  /** When no branch is found in both trees, the server tree is left as it is. */
  lemma {:induction false} MergeBranchesNone(server: Node, local: Node, names: set<string>, branches: seq<string>)
    requires forall k :: 0 <= k < |branches| ==> Locate(local, branches[k]).None? || Locate(server, branches[k]).None?
    ensures MergeBranches(server, local, names, branches) == server
    decreases |branches|
  {
    if branches != [] {
      assert forall k :: 0 <= k < |branches[1..]| ==> branches[1..][k] == branches[k + 1];
      MergeBranchesNone(server, local, names, branches[1..]);
    }
  }

  /** UpdateServerIndex from the loaded trees: nothing happens, and the result
      is (False, None), when the local index or the server index is missing;
      otherwise the server tree is merged in place and its file name returned. */
  method UpdateServerIndex(local: Option<Node>, server: IndexTree?, serverPath: string,
                           names: set<string>, branches: seq<string>) returns (updated: bool, name: Option<string>)
    modifies server
    ensures updated <==> local.Some? && server != null
    ensures updated ==> name == Some(Paths.Name(serverPath))
                        && server.Root() == MergeBranches(old(server.Root()), local.value, names, branches)
    ensures !updated ==> name == None
    ensures !updated && server != null ==> server.Root() == old(server.Root())
  {
    if local.None? || server == null {
      return false, None;
    }
    var localRoot := local.value;
    ghost var start := server.Root();
    for k := 0 to |branches|
      invariant MergeBranches(server.Root(), localRoot, names, branches[k..]) == MergeBranches(start, localRoot, names, branches)
    {
      assert branches[k..][1..] == branches[k + 1..];
      var b := branches[k];
      var l := Locate(localRoot, b);
      var s := Locate(server.Root(), b);
      if l.Some? && s.Some? {
        var kids := BranchAt(server.Root(), s.value).children;
        var pkgs := Selected(BranchAt(localRoot, l.value).children, names);
        var merged := MergeBranch(kids, pkgs);
        server.StoreBranch(s.value, merged);
      }
    }
    return true, Some(Paths.Name(serverPath));
  }
}
