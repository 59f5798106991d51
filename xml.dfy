/** The ElementTree view of a DLC index: elements with a tag, an attribute
    map and ordered children; the lookups index.py builds on them; and the
    mutable index tree whose root the tools update in place. */
module Xml {
  import opened Wrappers

  /** An XML element. Element text and attribute order are not modelled. */
  datatype Node = Node(tag: string, attrib: map<string, string>, children: seq<Node>)

  /** `dic.get(key)`. */
  function Get(dic: map<string, string>, key: string): (r: Option<string>)
    ensures r.Some? <==> key in dic
    ensures key in dic ==> r.value == dic[key]
  {
    if key in dic then Some(dic[key]) else None
  }

  /** GetItemfromDict: the value under key, or the default when key is absent. */
  function GetItem(dic: map<string, string>, key: string, default: string): (r: string)
    ensures r == Get(dic, key).GetOr(default)
  {
    if key in dic then dic[key] else default
  }

  /** After `set(key, value)` the key reads back as value and every other key reads as before. */
  lemma GetItemAfterSet(dic: map<string, string>, key: string, value: string, other: string, default: string)
    ensures GetItem(dic[key := value], key, default) == value
    ensures other != key ==> GetItem(dic[key := value], other, default) == GetItem(dic, other, default)
  {
  }

  /** `element.find(tag)` for a plain tag: the first child with that tag. */
  function Find(cs: seq<Node>, tag: string): (r: Option<nat>)
    ensures r.Some? ==> r.value < |cs| && cs[r.value].tag == tag
                        && forall j :: 0 <= j < r.value ==> cs[j].tag != tag
    ensures r.None? ==> forall j :: 0 <= j < |cs| ==> cs[j].tag != tag
  {
    if cs == [] then None
    else if cs[0].tag == tag then Some(0)
    else match Find(cs[1..], tag)
      case None => None
      case Some(k) => Some(k + 1)
  }

  /** Find is fixed by the first child carrying the tag. */
  lemma FindIs(cs: seq<Node>, tag: string, k: nat)
    requires k < |cs| && cs[k].tag == tag
    requires forall j :: 0 <= j < k ==> cs[j].tag != tag
    ensures Find(cs, tag) == Some(k)
  {
    var r := Find(cs, tag);
  }

  /** The attributes of the first child with the tag, if there is one. */
  function Attr(cs: seq<Node>, tag: string): (r: Option<map<string, string>>)
    ensures r.Some? <==> Find(cs, tag).Some?
    ensures r.Some? ==> r.value == cs[Find(cs, tag).value].attrib
  {
    match Find(cs, tag)
    case None => None
    case Some(i) => Some(cs[i].attrib)
  }

  /** GetSubElementAttributes: the first such child's attributes, else an empty map. */
  function GetSubElementAttributes(n: Node, sub: string): (r: map<string, string>)
    ensures r == Attr(n.children, sub).GetOr(map[])
  {
    match Find(n.children, sub)
    case None => map[]
    case Some(i) => n.children[i].attrib
  }

  /** `FileName/@val` of a package, if present. */
  function FileNameOf(n: Node): Option<string> {
    Get(GetSubElementAttributes(n, "FileName"), "val")
  }

  /** A `Package` child whose `FileName/@val` is exactly fileName. */
  predicate IsMatch(n: Node, fileName: string) {
    n.tag == "Package" && FileNameOf(n) == Some(fileName)
  }

  /** SearchPackages over the children of an element, in document order. */
  function SearchPackages(cs: seq<Node>, fileName: string): (r: seq<Node>)
    ensures |r| <= |cs|
    ensures forall i :: 0 <= i < |r| ==> IsMatch(r[i], fileName)
  {
    if cs == [] then []
    else (if IsMatch(cs[0], fileName) then [cs[0]] else []) + SearchPackages(cs[1..], fileName)
  }

  /** The search finds exactly the matching children. */
  lemma {:induction false} SearchPackagesExactly(cs: seq<Node>, fileName: string, x: Node)
    ensures x in SearchPackages(cs, fileName) <==> x in cs && IsMatch(x, fileName)
  {
    if cs != [] {
      SearchPackagesExactly(cs[1..], fileName, x);
      assert cs == [cs[0]] + cs[1..];
    }
  }

  /** The search keeps document order: it distributes over concatenation. */
  lemma {:induction false} SearchPackagesAppend(a: seq<Node>, b: seq<Node>, fileName: string)
    ensures SearchPackages(a + b, fileName) == SearchPackages(a, fileName) + SearchPackages(b, fileName)
  {
    if a == [] {
      assert a + b == b;
    } else {
      assert (a + b)[1..] == a[1..] + b;
      SearchPackagesAppend(a[1..], b, fileName);
    }
  }

  /** The search is empty exactly when no child matches. */
  lemma {:induction false} SearchPackagesEmpty(cs: seq<Node>, fileName: string)
    ensures SearchPackages(cs, fileName) == [] <==> forall i :: 0 <= i < |cs| ==> !IsMatch(cs[i], fileName)
  {
    if cs != [] {
      SearchPackagesEmpty(cs[1..], fileName);
      assert forall i :: 1 <= i < |cs| ==> cs[i] == cs[1..][i - 1];
    }
  }

  /** The matching is by exact string: another revision of the same archive is a different package. */
  lemma ExactMatchOnly(p: Node)
    requires p.tag == "Package" && FileNameOf(p) == Some("dlc/buildings-r1.zip")
    ensures SearchPackages([p], "dlc/buildings-r2.zip") == []
    ensures SearchPackages([p], "dlc/buildings-r1.zip") == [p]
  {
  }

  /** The children left after removing every match (`branch.remove` on each). */
  function Unmatched(cs: seq<Node>, fileName: string): (r: seq<Node>)
    ensures |r| <= |cs|
    ensures forall i :: 0 <= i < |r| ==> !IsMatch(r[i], fileName)
  {
    if cs == [] then []
    else (if IsMatch(cs[0], fileName) then [] else [cs[0]]) + Unmatched(cs[1..], fileName)
  }

  lemma {:induction false} UnmatchedAppend(a: seq<Node>, b: seq<Node>, fileName: string)
    ensures Unmatched(a + b, fileName) == Unmatched(a, fileName) + Unmatched(b, fileName)
  {
    if a == [] {
      assert a + b == b;
    } else {
      assert (a + b)[1..] == a[1..] + b;
      UnmatchedAppend(a[1..], b, fileName);
    }
  }

  /** Removing the matches keeps exactly the other children, in their order. */
  lemma {:induction false} UnmatchedExactly(cs: seq<Node>, fileName: string, x: Node)
    ensures x in Unmatched(cs, fileName) <==> x in cs && !IsMatch(x, fileName)
  {
    if cs != [] {
      UnmatchedExactly(cs[1..], fileName, x);
      assert cs == [cs[0]] + cs[1..];
    }
  }

  /** Without matches, nothing is removed. */
  lemma {:induction false} UnmatchedNoMatch(cs: seq<Node>, fileName: string)
    requires forall i :: 0 <= i < |cs| ==> !IsMatch(cs[i], fileName)
    ensures Unmatched(cs, fileName) == cs
  {
    if cs != [] {
      assert forall i :: 0 <= i < |cs[1..]| ==> cs[1..][i] == cs[i + 1];
      UnmatchedNoMatch(cs[1..], fileName);
      assert cs == [cs[0]] + cs[1..];
    }
  }

  lemma {:induction false} SearchUnmatched(cs: seq<Node>, fileName: string, other: string)
    requires other != fileName
    ensures SearchPackages(Unmatched(cs, fileName), other) == SearchPackages(cs, other)
  {
    if cs != [] {
      SearchUnmatched(cs[1..], fileName, other);
      var head := if IsMatch(cs[0], fileName) then [] else [cs[0]];
      SearchPackagesAppend(head, Unmatched(cs[1..], fileName), other);
    }
  }

  /** ElementTree's loader rule: a missing file, or a root with another tag,
      yields an empty tree whose root has the expected tag. */
  function LoadedRoot(parsed: Option<Node>, rootTag: string): (r: Node)
    ensures r.tag == rootTag
    ensures parsed.Some? && parsed.value.tag == rootTag ==> r == parsed.value
    ensures !(parsed.Some? && parsed.value.tag == rootTag) ==> r.attrib == map[] && r.children == []
  {
    if parsed.Some? && parsed.value.tag == rootTag then parsed.value else Node(rootTag, map[], [])
  }

  /** Where a branch lives: the root itself or one of its children. */
  datatype Loc = AtRoot | AtChild(index: nat)

  predicate ValidLoc(root: Node, loc: Loc) {
    loc.AtChild? ==> loc.index < |root.children|
  }

  /** `root if branch == root.tag else tree.find(branch)`. */
  function Locate(root: Node, branch: string): (r: Option<Loc>)
    ensures r.Some? ==> ValidLoc(root, r.value) && BranchAt(root, r.value).tag == branch
    ensures r.None? <==> branch != root.tag && Find(root.children, branch).None?
  {
    if branch == root.tag then Some(AtRoot)
    else match Find(root.children, branch)
      case None => None
      case Some(i) => Some(AtChild(i))
  }

  function BranchAt(root: Node, loc: Loc): Node
    requires ValidLoc(root, loc)
  {
    match loc
    case AtRoot => root
    case AtChild(i) => root.children[i]
  }

  /** The root after replacing the children of the branch at loc. */
  function WithBranchChildren(root: Node, loc: Loc, cs: seq<Node>): (r: Node)
    requires ValidLoc(root, loc)
    ensures ValidLoc(r, loc) && BranchAt(r, loc) == BranchAt(root, loc).(children := cs)
    ensures r.tag == root.tag
    ensures loc.AtChild? ==> r.attrib == root.attrib && |r.children| == |root.children|
                             && forall j :: 0 <= j < |root.children| && j != loc.index ==> r.children[j] == root.children[j]
  {
    match loc
    case AtRoot => root.(children := cs)
    case AtChild(i) => root.(children := root.children[i := root.children[i].(children := cs)])
  }

  /** The parsed index held in memory: its root element's fields, updated in place. */
  class IndexTree {
    var tag: string
    var attrib: map<string, string>
    var children: seq<Node>

    function Root(): Node
      reads this
    {
      Node(tag, attrib, children)
    }

    constructor (root: Node)
      ensures Root() == root
    {
      tag := root.tag;
      attrib := root.attrib;
      children := root.children;
    }

    /** `root.set(key, value)`. */
    method Set(key: string, value: string)
      modifies this
      ensures attrib == old(attrib)[key := value]
      ensures tag == old(tag) && children == old(children)
    {
      attrib := attrib[key := value];
    }

    /** `ET.SubElement(root, tag)`: a new empty child appended last. */
    method AppendChild(childTag: string)
      modifies this
      ensures children == old(children) + [Node(childTag, map[], [])]
      ensures tag == old(tag) && attrib == old(attrib)
    {
      children := children + [Node(childTag, map[], [])];
    }

    /** Stores new children for the branch at loc. */
    method StoreBranch(loc: Loc, cs: seq<Node>)
      requires ValidLoc(Root(), loc)
      modifies this
      ensures Root() == WithBranchChildren(old(Root()), loc, cs)
    {
      match loc
      case AtRoot =>
        children := cs;
      case AtChild(i) =>
        children := children[i := children[i].(children := cs)];
    }
  }
}
