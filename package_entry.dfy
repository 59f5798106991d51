/** UpdatePackageEntry of index.py: find the packages of one archive in a
    branch (or insert a fresh one at the front), then fill in their
    attributes and sub-elements with per-key defaults. */
module PackageEntry {
  import opened Wrappers
  import opened Xml

  /** The arguments of UpdatePackageEntry after `root`; None stands for Python's None. */
  datatype EntryArgs = EntryArgs(platform: Option<string>, minVersion: Option<string>, tier: Option<string>,
                                 fileSize: string, uncFileSize: string, indexCrc: string, fileName: string,
                                 language: Option<string>)

  const SignatureSentinel: string := "You should patch the APK/IPA to bypass this!"

  /** The attributes every updated package carries. */
  const PackageKeys: set<string> := {"platform", "unzip", "minVersion", "tier", "xml", "type", "ignore"}

  /** The seven `pkg.set` calls in source order, each reading the attributes as they stand. */
  function UpdatedAttrib(m: map<string, string>, a: EntryArgs): map<string, string> {
    var m1 := m["platform" := if a.platform.Some? then a.platform.value else GetItem(m, "platform", "all")];
    var m2 := m1["unzip" := GetItem(m1, "unzip", "false")];
    var m3 := m2["minVersion" := if a.minVersion.Some? then a.minVersion.value else GetItem(m2, "minVersion", "4.69.0")];
    var m4 := m3["tier" := if a.tier.Some? then a.tier.value else GetItem(m3, "tier", "all")];
    var m5 := m4["xml" := GetItem(m4, "xml", "")];
    var m6 := m5["type" := GetItem(m5, "type", "")];
    m6["ignore" := GetItem(m6, "ignore", "false")]
  }

  /** platform, minVersion and tier: the argument, else the existing value,
      else "all", "4.69.0", "all"; unzip, xml, type and ignore: the existing
      value, else "false", "", "", "false"; every other attribute kept. */
  lemma PackageAttributes(m: map<string, string>, a: EntryArgs)
    ensures var r := UpdatedAttrib(m, a);
      r.Keys == m.Keys + PackageKeys
      && r["platform"] == a.platform.GetOr(GetItem(m, "platform", "all"))
      && r["minVersion"] == a.minVersion.GetOr(GetItem(m, "minVersion", "4.69.0"))
      && r["tier"] == a.tier.GetOr(GetItem(m, "tier", "all"))
      && r["unzip"] == GetItem(m, "unzip", "false")
      && r["xml"] == GetItem(m, "xml", "")
      && r["type"] == GetItem(m, "type", "")
      && r["ignore"] == GetItem(m, "ignore", "false")
      && forall k :: k in m && k !in PackageKeys ==> r[k] == m[k]
  {
  }

  /** When every key holds its value already, the seven sets change nothing. */
  lemma UpdatedAttribFixed(m: map<string, string>, a: EntryArgs)
    requires PackageKeys <= m.Keys
    requires a.platform.Some? ==> m["platform"] == a.platform.value
    requires a.minVersion.Some? ==> m["minVersion"] == a.minVersion.value
    requires a.tier.Some? ==> m["tier"] == a.tier.value
    ensures UpdatedAttrib(m, a) == m
  {
    assert m["platform" := m["platform"]] == m;
    assert m["unzip" := m["unzip"]] == m;
    assert m["minVersion" := m["minVersion"]] == m;
    assert m["tier" := m["tier"]] == m;
    assert m["xml" := m["xml"]] == m;
    assert m["type" := m["type"]] == m;
    assert m["ignore" := m["ignore"]] == m;
  }

  /** A second update with the same arguments leaves the attributes as they are. */
  lemma UpdatedAttribIdempotent(m: map<string, string>, a: EntryArgs)
    ensures UpdatedAttrib(UpdatedAttrib(m, a), a) == UpdatedAttrib(m, a)
  {
    PackageAttributes(m, a);
    UpdatedAttribFixed(UpdatedAttrib(m, a), a);
  }

  /** The sub-element a key names: its attributes if present, else the default. */
  function Existing(pkg: Node, key: string, default: map<string, string>): map<string, string> {
    Attr(pkg.children, key).GetOr(default)
  }

  const SubElementKeys: seq<string> :=
    ["LocalDir", "FileSize", "UncompressedFileSize", "IndexFileCRC", "IndexFileSig", "Version", "FileName", "Language"]

  function Keys(kvs: seq<(string, map<string, string>)>): (r: seq<string>)
    ensures |r| == |kvs| && forall i :: 0 <= i < |kvs| ==> r[i] == kvs[i].0
  {
    seq(|kvs|, i requires 0 <= i < |kvs| => kvs[i].0)
  }

  predicate Distinct(s: seq<string>) {
    forall i, j :: 0 <= i < j < |s| ==> s[i] != s[j]
  }

  /** The `subelements` dictionary in its key order, computed from the package as it was found. */
  function SubElementValues(pkg: Node, a: EntryArgs): seq<(string, map<string, string>)> {
    [("LocalDir", Existing(pkg, "LocalDir", map["name" := "dlc"])),
     ("FileSize", map["val" := a.fileSize]),
     ("UncompressedFileSize", map["val" := a.uncFileSize]),
     ("IndexFileCRC", map["val" := a.indexCrc]),
     ("IndexFileSig", Existing(pkg, "IndexFileSig", map["val" := SignatureSentinel])),
     ("Version", Existing(pkg, "Version", map["val" := "1"])),
     ("FileName", map["val" := a.fileName]),
     ("Language", if a.language.Some? then map["val" := a.language.value]
                  else Existing(pkg, "Language", map["val" := "all"]))]
  }

  /** One step of the sub-element loop: replace the first such child's
      attributes, or append a new child. */
  function SetOrAppend(cs: seq<Node>, key: string, value: map<string, string>): seq<Node> {
    match Find(cs, key)
    case None => cs + [Node(key, value, [])]
    case Some(i) => cs[i := cs[i].(attrib := value)]
  }

  lemma FindSameTags(cs: seq<Node>, ds: seq<Node>, tag: string)
    requires |cs| == |ds| && forall i :: 0 <= i < |cs| ==> cs[i].tag == ds[i].tag
    ensures Find(cs, tag) == Find(ds, tag)
  {
    match Find(cs, tag)
    case None =>
    case Some(k) => FindIs(ds, tag, k);
  }

  lemma FindAppendOther(cs: seq<Node>, n: Node, tag: string)
    requires n.tag != tag
    ensures Find(cs + [n], tag) == Find(cs, tag)
  {
    var ds := cs + [n];
    match Find(cs, tag)
    case None =>
    case Some(k) => FindIs(ds, tag, k);
  }

  /** After one step the key reads back as its value; other keys read as before. */
  lemma SetOrAppendAttr(cs: seq<Node>, key: string, value: map<string, string>, other: string)
    ensures Attr(SetOrAppend(cs, key, value), key) == Some(value)
    ensures other != key ==> Attr(SetOrAppend(cs, key, value), other) == Attr(cs, other)
  {
    var r := SetOrAppend(cs, key, value);
    match Find(cs, key)
    case None =>
      FindIs(r, key, |cs|);
      if other != key {
        FindAppendOther(cs, Node(key, value, []), other);
      }
    case Some(i) =>
      FindSameTags(cs, r, key);
      FindSameTags(cs, r, other);
  }

  /** The sub-element loop, as a fold over the key/value pairs. */
  function ApplyAll(cs: seq<Node>, kvs: seq<(string, map<string, string>)>): seq<Node>
    decreases |kvs|
  {
    if kvs == [] then cs else ApplyAll(SetOrAppend(cs, kvs[0].0, kvs[0].1), kvs[1..])
  }

  /** A key the loop does not touch reads as before. */
  lemma {:induction false} ApplyAllOther(cs: seq<Node>, kvs: seq<(string, map<string, string>)>, tag: string)
    requires tag !in Keys(kvs)
    ensures Attr(ApplyAll(cs, kvs), tag) == Attr(cs, tag)
    decreases |kvs|
  {
    if kvs != [] {
      assert Keys(kvs)[0] == kvs[0].0;
      assert Keys(kvs[1..]) == Keys(kvs)[1..];
      SetOrAppendAttr(cs, kvs[0].0, kvs[0].1, tag);
      ApplyAllOther(SetOrAppend(cs, kvs[0].0, kvs[0].1), kvs[1..], tag);
    }
  }

  /** With distinct keys, every key ends up with its own value. */
  lemma {:induction false} ApplyAllAttr(cs: seq<Node>, kvs: seq<(string, map<string, string>)>, j: nat)
    requires Distinct(Keys(kvs)) && j < |kvs|
    ensures Attr(ApplyAll(cs, kvs), kvs[j].0) == Some(kvs[j].1)
    decreases |kvs|
  {
    var cs1 := SetOrAppend(cs, kvs[0].0, kvs[0].1);
    assert Keys(kvs[1..]) == Keys(kvs)[1..];
    if j == 0 {
      SetOrAppendAttr(cs, kvs[0].0, kvs[0].1, kvs[0].0);
      ApplyAllOther(cs1, kvs[1..], kvs[0].0);
    } else {
      assert kvs[1..][j - 1] == kvs[j];
      ApplyAllAttr(cs1, kvs[1..], j - 1);
    }
  }

  lemma DistinctTail(ks: seq<string>)
    requires Distinct(ks) && ks != []
    ensures ks[0] !in ks[1..] && Distinct(ks[1..])
  {
    assert forall i :: 0 <= i < |ks[1..]| ==> ks[1..][i] == ks[i + 1];
  }

  /** The sub-elements the loop appends: the missing keys, in key order. */
  function Missing(cs: seq<Node>, kvs: seq<(string, map<string, string>)>): seq<Node> {
    if kvs == [] then []
    else (if Find(cs, kvs[0].0).None? then [Node(kvs[0].0, kvs[0].1, [])] else []) + Missing(cs, kvs[1..])
  }

  /** Into an element without children, the loop appends every key in order. */
  lemma {:induction false} MissingFromEmpty(kvs: seq<(string, map<string, string>)>)
    ensures |Missing([], kvs)| == |kvs|
    ensures forall i :: 0 <= i < |kvs| ==> Missing([], kvs)[i] == Node(kvs[i].0, kvs[i].1, [])
  {
    if kvs != [] {
      MissingFromEmpty(kvs[1..]);
    }
  }

  lemma {:induction false} MissingSame(cs: seq<Node>, ds: seq<Node>, kvs: seq<(string, map<string, string>)>)
    requires forall i :: 0 <= i < |kvs| ==> (Find(cs, kvs[i].0).None? <==> Find(ds, kvs[i].0).None?)
    ensures Missing(cs, kvs) == Missing(ds, kvs)
  {
    if kvs != [] {
      assert forall i :: 0 <= i < |kvs[1..]| ==> kvs[1..][i] == kvs[i + 1];
      MissingSame(cs, ds, kvs[1..]);
    }
  }

  lemma SetOrAppendMissing(cs: seq<Node>, key: string, value: map<string, string>, rest: seq<(string, map<string, string>)>)
    requires key !in Keys(rest)
    ensures Missing(SetOrAppend(cs, key, value), rest) == Missing(cs, rest)
  {
    var cs1 := SetOrAppend(cs, key, value);
    forall i | 0 <= i < |rest|
      ensures Find(cs1, rest[i].0).None? <==> Find(cs, rest[i].0).None?
    {
      assert Keys(rest)[i] == rest[i].0;
      SetOrAppendAttr(cs, key, value, rest[i].0);
    }
    MissingSame(cs1, cs, rest);
  }

  /** ds keeps the place, tag and children of every child of cs. */
  predicate KeepsShape(cs: seq<Node>, ds: seq<Node>) {
    |cs| <= |ds| && forall i :: 0 <= i < |cs| ==> ds[i].tag == cs[i].tag && ds[i].children == cs[i].children
  }

  /** ds leaves every child of cs whose tag is not among keys as it was. */
  predicate KeepsOthers(cs: seq<Node>, ds: seq<Node>, keys: seq<string>) {
    |cs| <= |ds| && forall i :: 0 <= i < |cs| && cs[i].tag !in keys ==> ds[i] == cs[i]
  }

  lemma KeepsShapeTrans(cs: seq<Node>, ds: seq<Node>, es: seq<Node>)
    requires KeepsShape(cs, ds) && KeepsShape(ds, es)
    ensures KeepsShape(cs, es)
  {
  }

  lemma KeepsOthersTrans(cs: seq<Node>, ds: seq<Node>, es: seq<Node>, key: string, keys: seq<string>)
    requires KeepsShape(cs, ds) && KeepsOthers(cs, ds, [key]) && KeepsOthers(ds, es, keys)
    ensures KeepsOthers(cs, es, [key] + keys)
  {
    forall i | 0 <= i < |cs| && cs[i].tag !in [key] + keys
      ensures es[i] == cs[i]
    {
      assert ds[i].tag == cs[i].tag;
    }
  }

  lemma SetOrAppendKeeps(cs: seq<Node>, key: string, value: map<string, string>)
    ensures var r := SetOrAppend(cs, key, value); KeepsShape(cs, r) && KeepsOthers(cs, r, [key])
  {
  }

  /** The loop keeps every existing child in place with its tag and children,
      and leaves the children with untouched tags as they were. */
  lemma {:induction false} ApplyAllKeeps(cs: seq<Node>, kvs: seq<(string, map<string, string>)>)
    ensures var r := ApplyAll(cs, kvs); KeepsShape(cs, r) && KeepsOthers(cs, r, Keys(kvs))
    decreases |kvs|
  {
    if kvs != [] {
      var k0, v0, rest := kvs[0].0, kvs[0].1, kvs[1..];
      assert Keys(kvs) == [k0] + Keys(rest);
      var cs1 := SetOrAppend(cs, k0, v0);
      var r := ApplyAll(cs1, rest);
      SetOrAppendKeeps(cs, k0, v0);
      ApplyAllKeeps(cs1, rest);
      KeepsShapeTrans(cs, cs1, r);
      KeepsOthersTrans(cs, cs1, r, k0, Keys(rest));
    }
  }

  /** With distinct keys the loop appends exactly the missing keys, in key order. */
  lemma {:induction false} ApplyAllAppends(cs: seq<Node>, kvs: seq<(string, map<string, string>)>)
    requires Distinct(Keys(kvs))
    ensures var r := ApplyAll(cs, kvs); |r| == |cs| + |Missing(cs, kvs)| && r[|cs|..] == Missing(cs, kvs)
    decreases |kvs|
  {
    if kvs != [] {
      var k0, v0, rest := kvs[0].0, kvs[0].1, kvs[1..];
      assert Keys(rest) == Keys(kvs)[1..];
      DistinctTail(Keys(kvs));
      var cs1 := SetOrAppend(cs, k0, v0);
      ApplyAllAppends(cs1, rest);
      SetOrAppendMissing(cs, k0, v0, rest);
      AppendsStep(cs, k0, v0, rest, ApplyAll(cs1, rest));
      assert ApplyAll(cs, kvs) == ApplyAll(cs1, rest);
    }
  }

  /** One step of the loop, for ApplyAllAppends. */
  lemma AppendsStep(cs: seq<Node>, k0: string, v0: map<string, string>, rest: seq<(string, map<string, string>)>, r: seq<Node>)
    requires k0 !in Keys(rest)
    requires r == ApplyAll(SetOrAppend(cs, k0, v0), rest)
    requires |r| == |SetOrAppend(cs, k0, v0)| + |Missing(cs, rest)|
    requires r[|SetOrAppend(cs, k0, v0)|..] == Missing(cs, rest)
    ensures var m := Missing(cs, [(k0, v0)] + rest); |r| == |cs| + |m| && r[|cs|..] == m
  {
    var kvs := [(k0, v0)] + rest;
    assert kvs[1..] == rest;
    if Find(cs, k0).None? {
      assert Missing(cs, kvs) == [Node(k0, v0, [])] + Missing(cs, rest);
      AppendedAtEnd(cs, k0, v0, rest, r);
    } else {
      assert Missing(cs, kvs) == Missing(cs, rest);
      assert |SetOrAppend(cs, k0, v0)| == |cs|;
    }
  }

  lemma AppendedAtEnd(cs: seq<Node>, k0: string, v0: map<string, string>, rest: seq<(string, map<string, string>)>, r: seq<Node>)
    requires Find(cs, k0).None? && k0 !in Keys(rest)
    requires r == ApplyAll(SetOrAppend(cs, k0, v0), rest)
    requires |cs| + 1 <= |r| && r[|cs| + 1..] == Missing(cs, rest)
    ensures r[|cs|..] == [Node(k0, v0, [])] + Missing(cs, rest)
  {
    AppendedStays(cs, k0, v0, rest);
    assert r[|cs|..] == [r[|cs|]] + r[|cs| + 1..];
  }

  lemma AppendedStays(cs: seq<Node>, k0: string, v0: map<string, string>, rest: seq<(string, map<string, string>)>)
    requires Find(cs, k0).None? && k0 !in Keys(rest)
    ensures var r := ApplyAll(SetOrAppend(cs, k0, v0), rest); |cs| < |r| && r[|cs|] == Node(k0, v0, [])
  {
    var cs1 := SetOrAppend(cs, k0, v0);
    assert cs1 == cs + [Node(k0, v0, [])];
    ApplyAllKeeps(cs1, rest);
    assert cs1[|cs|] == Node(k0, v0, []);
  }

  /** A loop whose keys already hold their values changes nothing. */
  lemma {:induction false} ApplyAllStable(ds: seq<Node>, kvs: seq<(string, map<string, string>)>)
    requires forall j :: 0 <= j < |kvs| ==> Attr(ds, kvs[j].0) == Some(kvs[j].1)
    ensures ApplyAll(ds, kvs) == ds
    decreases |kvs|
  {
    if kvs != [] {
      var i := Find(ds, kvs[0].0).value;
      assert ds[i].attrib == kvs[0].1;
      assert SetOrAppend(ds, kvs[0].0, kvs[0].1) == ds;
      assert forall j :: 0 <= j < |kvs[1..]| ==> kvs[1..][j] == kvs[j + 1];
      ApplyAllStable(ds, kvs[1..]);
    }
  }

  /** One package after the update: attributes, then sub-elements. */
  function UpdatedPackage(pkg: Node, a: EntryArgs): Node {
    Node(pkg.tag, UpdatedAttrib(pkg.attrib, a), ApplyAll(pkg.children, SubElementValues(pkg, a)))
  }

  lemma SubElementKeysAreDistinct()
    ensures Distinct(SubElementKeys)
  {
  }

  lemma SubElementKeysDistinct(pkg: Node, a: EntryArgs)
    ensures Keys(SubElementValues(pkg, a)) == SubElementKeys
    ensures Distinct(Keys(SubElementValues(pkg, a)))
  {
    var kvs := SubElementValues(pkg, a);
    var ks := Keys(kvs);
    assert |ks| == 8;
    assert ks[0] == "LocalDir" && ks[1] == "FileSize" && ks[2] == "UncompressedFileSize" && ks[3] == "IndexFileCRC";
    assert ks[4] == "IndexFileSig" && ks[5] == "Version" && ks[6] == "FileName" && ks[7] == "Language";
    SubElementKeysAreDistinct();
  }

  /** The sub-elements of an updated package: sizes, CRC and file name from the
      arguments; LocalDir, IndexFileSig and Version as found, else their
      defaults; Language from the argument, else as found, else "all". */
  lemma UpdatedPackageSubElements(pkg: Node, a: EntryArgs)
    ensures var cs := UpdatedPackage(pkg, a).children;
      Attr(cs, "LocalDir") == Some(Attr(pkg.children, "LocalDir").GetOr(map["name" := "dlc"]))
      && Attr(cs, "FileSize") == Some(map["val" := a.fileSize])
      && Attr(cs, "UncompressedFileSize") == Some(map["val" := a.uncFileSize])
      && Attr(cs, "IndexFileCRC") == Some(map["val" := a.indexCrc])
      && Attr(cs, "IndexFileSig") == Some(Attr(pkg.children, "IndexFileSig").GetOr(map["val" := SignatureSentinel]))
      && Attr(cs, "Version") == Some(Attr(pkg.children, "Version").GetOr(map["val" := "1"]))
      && Attr(cs, "FileName") == Some(map["val" := a.fileName])
      && Attr(cs, "Language") == Some(if a.language.Some? then map["val" := a.language.value]
                                      else Attr(pkg.children, "Language").GetOr(map["val" := "all"]))
  {
    var kvs := SubElementValues(pkg, a);
    SubElementKeysDistinct(pkg, a);
    ApplyAllAttr(pkg.children, kvs, 0);
    ApplyAllAttr(pkg.children, kvs, 1);
    ApplyAllAttr(pkg.children, kvs, 2);
    ApplyAllAttr(pkg.children, kvs, 3);
    ApplyAllAttr(pkg.children, kvs, 4);
    ApplyAllAttr(pkg.children, kvs, 5);
    ApplyAllAttr(pkg.children, kvs, 6);
    ApplyAllAttr(pkg.children, kvs, 7);
  }

  /** The missing sub-elements are appended in key order; the children already
      there keep their place, tag and children, and those with other tags are
      untouched. */
  lemma UpdatedPackageShape(pkg: Node, a: EntryArgs)
    ensures var cs := UpdatedPackage(pkg, a).children;
      var kvs := SubElementValues(pkg, a);
      |cs| == |pkg.children| + |Missing(pkg.children, kvs)| && cs[|pkg.children|..] == Missing(pkg.children, kvs)
      && KeepsShape(pkg.children, cs) && KeepsOthers(pkg.children, cs, SubElementKeys)
  {
    SubElementKeysDistinct(pkg, a);
    ApplyAllAppends(pkg.children, SubElementValues(pkg, a));
    ApplyAllKeeps(pkg.children, SubElementValues(pkg, a));
  }

  /** The attributes of a package UpdatePackageEntry creates. */
  lemma FreshPackageAttributes(a: EntryArgs)
    ensures UpdatedPackage(Node("Package", map[], []), a).attrib
         == map["platform" := a.platform.GetOr("all"), "unzip" := "false",
                "minVersion" := a.minVersion.GetOr("4.69.0"), "tier" := a.tier.GetOr("all"),
                "xml" := "", "type" := "", "ignore" := "false"]
  {
  }

  /** The sub-elements of a package UpdatePackageEntry creates, in creation order. */
  lemma FreshPackageChildren(a: EntryArgs)
    ensures UpdatedPackage(Node("Package", map[], []), a).children
         == [Node("LocalDir", map["name" := "dlc"], []),
             Node("FileSize", map["val" := a.fileSize], []),
             Node("UncompressedFileSize", map["val" := a.uncFileSize], []),
             Node("IndexFileCRC", map["val" := a.indexCrc], []),
             Node("IndexFileSig", map["val" := SignatureSentinel], []),
             Node("Version", map["val" := "1"], []),
             Node("FileName", map["val" := a.fileName], []),
             Node("Language", map["val" := a.language.GetOr("all")], [])]
  {
    var blank := Node("Package", map[], []);
    var kvs := SubElementValues(blank, a);
    SubElementKeysDistinct(blank, a);
    ApplyAllAppends([], kvs);
    MissingFromEmpty(kvs);
  }

  /** An updated package is found under the file name it was updated with. */
  lemma UpdatedPackageMatches(pkg: Node, a: EntryArgs)
    requires pkg.tag == "Package"
    ensures IsMatch(UpdatedPackage(pkg, a), a.fileName)
  {
    UpdatedPackageSubElements(pkg, a);
  }

  /** The sub-element values computed from an updated package are those it was updated with. */
  lemma SubElementValuesStable(pkg: Node, a: EntryArgs)
    ensures SubElementValues(UpdatedPackage(pkg, a), a) == SubElementValues(pkg, a)
  {
    UpdatedPackageSubElements(pkg, a);
  }

  /** Updating a package twice with the same arguments is updating it once. */
  lemma UpdatedPackageIdempotent(pkg: Node, a: EntryArgs)
    ensures UpdatedPackage(UpdatedPackage(pkg, a), a) == UpdatedPackage(pkg, a)
  {
    var p1 := UpdatedPackage(pkg, a);
    var kvs := SubElementValues(pkg, a);
    SubElementValuesStable(pkg, a);
    SubElementKeysDistinct(pkg, a);
    forall j | 0 <= j < |kvs|
      ensures Attr(p1.children, kvs[j].0) == Some(kvs[j].1)
    {
      ApplyAllAttr(pkg.children, kvs, j);
    }
    ApplyAllStable(p1.children, kvs);
    UpdatedAttribIdempotent(pkg.attrib, a);
  }

  /** One package as index.py updates it: the seven `pkg.set` calls, then the
      loop over the sub-element dictionary. */
  method UpdatePackage(pkg: Node, a: EntryArgs) returns (p: Node)
    ensures p == UpdatedPackage(pkg, a)
  {
    var kvs := SubElementValues(pkg, a);
    var attrib := UpdatedAttrib(pkg.attrib, a);
    var cs := pkg.children;
    for k := 0 to |kvs|
      invariant ApplyAll(cs, kvs[k..]) == ApplyAll(pkg.children, kvs)
    {
      assert kvs[k..][1..] == kvs[k + 1..];
      var key, value := kvs[k].0, kvs[k].1;
      match Find(cs, key)
      case None =>
        cs := cs + [Node(key, value, [])];
      case Some(i) =>
        cs := cs[i := cs[i].(attrib := value)];
    }
    assert kvs[|kvs|..] == [];
    p := Node(pkg.tag, attrib, cs);
  }

  /** A child as the update loop leaves it. */
  function Touched(n: Node, a: EntryArgs): Node {
    if IsMatch(n, a.fileName) then UpdatedPackage(n, a) else n
  }

  /** Every matching child updated in place; the others as they were. */
  function MapMatched(cs: seq<Node>, a: EntryArgs): (r: seq<Node>)
    ensures |r| == |cs|
  {
    seq(|cs|, i requires 0 <= i < |cs| => Touched(cs[i], a))
  }

  /** UpdatePackageEntry on the children of a branch. */
  function UpdateEntrySpec(cs: seq<Node>, a: EntryArgs): seq<Node> {
    if SearchPackages(cs, a.fileName) == [] then [UpdatedPackage(Node("Package", map[], []), a)] + cs
    else MapMatched(cs, a)
  }

  /** The update loop over the packages found, each updated in place. */
  method UpdateMatched(cs: seq<Node>, a: EntryArgs) returns (r: seq<Node>)
    ensures r == MapMatched(cs, a)
  {
    r := cs;
    for i := 0 to |cs|
      invariant |r| == |cs|
      invariant forall j :: 0 <= j < i ==> r[j] == Touched(cs[j], a)
      invariant forall j :: i <= j < |cs| ==> r[j] == cs[j]
    {
      if IsMatch(r[i], a.fileName) {
        var p := UpdatePackage(r[i], a);
        r := r[i := p];
      }
    }
  }

  /** UpdatePackageEntry as index.py runs it: with no match a fresh package
      goes in at the front and is the one updated; otherwise every match is. */
  method UpdateEntryInBranch(cs: seq<Node>, a: EntryArgs) returns (r: seq<Node>)
    ensures r == UpdateEntrySpec(cs, a)
  {
    var packages := SearchPackages(cs, a.fileName);
    if |packages| == 0 {
      var p := UpdatePackage(Node("Package", map[], []), a);
      r := [p] + cs;
    } else {
      r := UpdateMatched(cs, a);
    }
  }

  /** With no match, exactly one new package goes in at index 0, found under
      the file name, and the other children follow unchanged in order. */
  lemma UpdateEntryInserts(cs: seq<Node>, a: EntryArgs)
    requires SearchPackages(cs, a.fileName) == []
    ensures var r := UpdateEntrySpec(cs, a);
      |r| == |cs| + 1 && r[1..] == cs && SearchPackages(r, a.fileName) == [r[0]]
  {
    var r := UpdateEntrySpec(cs, a);
    UpdatedPackageMatches(Node("Package", map[], []), a);
    assert r == [r[0]] + cs;
    SearchPackagesAppend([r[0]], cs, a.fileName);
  }

  /** Children that do not match keep their value, at the same place or one
      further down when a package was inserted. */
  lemma UpdateEntryLeavesOthers(cs: seq<Node>, a: EntryArgs, i: nat)
    requires i < |cs| && !IsMatch(cs[i], a.fileName)
    ensures var r := UpdateEntrySpec(cs, a);
      var shift := if SearchPackages(cs, a.fileName) == [] then 1 else 0;
      i + shift < |r| && r[i + shift] == cs[i]
  {
  }

  /** A touched child that matches already carries the update. */
  lemma TouchedFixed(n: Node, a: EntryArgs)
    ensures IsMatch(n, a.fileName) ==> IsMatch(Touched(n, a), a.fileName)
    ensures IsMatch(Touched(n, a), a.fileName) ==> UpdatedPackage(Touched(n, a), a) == Touched(n, a)
  {
    if IsMatch(n, a.fileName) {
      UpdatedPackageMatches(n, a);
      UpdatedPackageIdempotent(n, a);
    }
  }

  lemma InsertedMatches(cs: seq<Node>, a: EntryArgs)
    requires SearchPackages(cs, a.fileName) == []
    ensures var r := UpdateEntrySpec(cs, a);
      SearchPackages(r, a.fileName) != []
      && forall i :: 0 <= i < |r| && IsMatch(r[i], a.fileName) ==> UpdatedPackage(r[i], a) == r[i]
  {
    var r := UpdateEntrySpec(cs, a);
    SearchPackagesEmpty(cs, a.fileName);
    UpdateEntryInserts(cs, a);
    var p := UpdatedPackage(Node("Package", map[], []), a);
    assert r == [p] + cs;
    forall i | 0 <= i < |r| && IsMatch(r[i], a.fileName)
      ensures UpdatedPackage(r[i], a) == r[i]
    {
      if i == 0 {
        UpdatedPackageIdempotent(Node("Package", map[], []), a);
      }
    }
  }

  lemma MappedMatches(cs: seq<Node>, a: EntryArgs)
    requires SearchPackages(cs, a.fileName) != []
    ensures var r := UpdateEntrySpec(cs, a);
      SearchPackages(r, a.fileName) != []
      && forall i :: 0 <= i < |r| && IsMatch(r[i], a.fileName) ==> UpdatedPackage(r[i], a) == r[i]
  {
    var r := UpdateEntrySpec(cs, a);
    assert r == MapMatched(cs, a);
    SearchPackagesEmpty(cs, a.fileName);
    var k :| 0 <= k < |cs| && IsMatch(cs[k], a.fileName);
    assert r[k] == Touched(cs[k], a);
    TouchedFixed(cs[k], a);
    assert IsMatch(r[k], a.fileName);
    SearchPackagesEmpty(r, a.fileName);
    forall i | 0 <= i < |r| && IsMatch(r[i], a.fileName)
      ensures UpdatedPackage(r[i], a) == r[i]
    {
      assert r[i] == Touched(cs[i], a);
      TouchedFixed(cs[i], a);
    }
  }

  /** After the update the archive is always listed, and every child listed
      under its name already carries the update. */
  lemma UpdateEntryMatches(cs: seq<Node>, a: EntryArgs)
    ensures var r := UpdateEntrySpec(cs, a);
      SearchPackages(r, a.fileName) != []
      && forall i :: 0 <= i < |r| && IsMatch(r[i], a.fileName) ==> UpdatedPackage(r[i], a) == r[i]
  {
    if SearchPackages(cs, a.fileName) == [] {
      InsertedMatches(cs, a);
    } else {
      MappedMatches(cs, a);
    }
  }

  /** A second identical call of UpdatePackageEntry changes nothing. */
  lemma UpdateEntryIdempotent(cs: seq<Node>, a: EntryArgs)
    ensures UpdateEntrySpec(UpdateEntrySpec(cs, a), a) == UpdateEntrySpec(cs, a)
  {
    var r := UpdateEntrySpec(cs, a);
    UpdateEntryMatches(cs, a);
    var r2 := MapMatched(r, a);
    assert forall i :: 0 <= i < |r| ==> r2[i] == r[i];
  }
}
