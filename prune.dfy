/** The two clean-ups of stale package entries: RemoveDeadPackages of
    index.py on the server index, where a package goes when its archive is
    gone, and the loop of pack.py on the local index, where a package goes
    when its source subdirectory is gone or empty. Both walk the packages of
    each listed branch and remove the stale ones in place. */
module Prune {
  import opened Wrappers
  import opened Xml
  import Text
  import Paths

  /** When a package entry is stale. Missing: its `FileName/@val`, colons
      read as path separators, is not among the files present under the DLC
      root. Gone: the subdirectory its file name was built from (the stem
      without its `-r<digits>` revision) is not among the non-empty
      subdirectories of the source directory; a head in `SelfOrParent`
      names the source directory itself or its parent, both existing and
      non-empty, so it is never stale. Orphaned: as Gone, and in
      addition neither the stem, nor the stem without its revision, of the
      name read with colons as separators or read as it is, names a live
      subdirectory (the corrected local clean-up, which keeps a package
      built for a live subdirectory whatever its name). */
  /** Heads that `Path(directory, head)` resolves to the source directory
      itself (which holds the index) or to its parent (which holds the
      source directory). */
  const SelfOrParent: set<string> := {"", ".", ".."}

  /** The stripped stem the clean-up as written looks up names a directory
      that may be missing. */
  predicate HeadGone(d: string, liveDirs: set<string>) {
    d !in SelfOrParent && d !in liveDirs
  }

  datatype Rule =
    | Missing(present: set<string>)
    | Gone(liveDirs: set<string>)
    | Orphaned(liveDirs: set<string>)

  /** A stale package entry. A package without a FileName value is never
      stale (the local loop stops on one before it asks). */
  predicate IsDead(p: Node, rule: Rule) {
    p.tag == "Package" && FileNameOf(p).Some? &&
    match rule
    case Missing(present) => Text.ColonsToSlashes(FileNameOf(p).value) !in present
    case Gone(liveDirs) =>
      HeadGone(Paths.LocalSubdirectory(FileNameOf(p).value), liveDirs)
    case Orphaned(liveDirs) =>
      var v := FileNameOf(p).value;
      HeadGone(Paths.LocalSubdirectory(v), liveDirs) && Paths.StoredStem(v) !in liveDirs
      && Paths.StripRevision(Paths.RawStem(v)) !in liveDirs && Paths.RawStem(v) !in liveDirs
  }

  /** The children left after every dead package is removed. */
  function Survivors(cs: seq<Node>, rule: Rule): (r: seq<Node>)
    ensures |r| <= |cs|
    ensures forall i :: 0 <= i < |r| ==> !IsDead(r[i], rule)
  {
    if cs == [] then []
    else (if IsDead(cs[0], rule) then [] else [cs[0]]) + Survivors(cs[1..], rule)
  }

  /** Exactly the live children survive: other elements, packages without a
      file name and packages whose archive exists. */
  lemma {:induction false} SurvivorsExactly(cs: seq<Node>, rule: Rule, x: Node)
    ensures x in Survivors(cs, rule) <==> x in cs && !IsDead(x, rule)
  {
    if cs != [] {
      SurvivorsExactly(cs[1..], rule, x);
      assert cs == [cs[0]] + cs[1..];
    }
  }

  /** Removal keeps document order: it distributes over concatenation. */
  lemma {:induction false} SurvivorsAppend(a: seq<Node>, b: seq<Node>, rule: Rule)
    ensures Survivors(a + b, rule) == Survivors(a, rule) + Survivors(b, rule)
  {
    if a == [] {
      assert a + b == b;
    } else {
      assert (a + b)[1..] == a[1..] + b;
      SurvivorsAppend(a[1..], b, rule);
    }
  }

  /** Nothing is removed exactly when no child is dead. */
  lemma SurvivorsUnchanged(cs: seq<Node>, rule: Rule)
    ensures Survivors(cs, rule) == cs <==> forall i :: 0 <= i < |cs| ==> !IsDead(cs[i], rule)
  {
    if Survivors(cs, rule) == cs {
      SurvivorsKeepAll(cs, rule);
    } else if forall i :: 0 <= i < |cs| ==> !IsDead(cs[i], rule) {
      NoneDeadSurvive(cs, rule);
    }
  }

  lemma SurvivorsKeepAll(cs: seq<Node>, rule: Rule)
    requires Survivors(cs, rule) == cs
    ensures forall i :: 0 <= i < |cs| ==> !IsDead(cs[i], rule)
  {
  }

  lemma {:induction false} NoneDeadSurvive(cs: seq<Node>, rule: Rule)
    requires forall i :: 0 <= i < |cs| ==> !IsDead(cs[i], rule)
    ensures Survivors(cs, rule) == cs
  {
    if cs != [] {
      var tail := cs[1..];
      assert forall i :: 0 <= i < |tail| ==> tail[i] == cs[i + 1];
      NoneDeadSurvive(tail, rule);
      assert cs == [cs[0]] + tail;
    }
  }

  /** A second clean-up of the same branch removes nothing. */
  lemma SurvivorsIdempotent(cs: seq<Node>, rule: Rule)
    ensures Survivors(Survivors(cs, rule), rule) == Survivors(cs, rule)
  {
    SurvivorsUnchanged(Survivors(cs, rule), rule);
  }

  /** One of the first k children is dead. */
  predicate DeadBefore(cs: seq<Node>, k: nat, rule: Rule)
    requires k <= |cs|
  {
    exists i :: 0 <= i < k && IsDead(cs[i], rule)
  }

  lemma DeadBeforeStep(cs: seq<Node>, k: nat, rule: Rule)
    requires k < |cs|
    ensures DeadBefore(cs, k + 1, rule) <==> DeadBefore(cs, k, rule) || IsDead(cs[k], rule)
  {
    if DeadBefore(cs, k + 1, rule) && !IsDead(cs[k], rule) {
      var i :| 0 <= i < k + 1 && IsDead(cs[i], rule);
      assert i < k;
    }
  }

  /** One step of the loop: the k-th child is dropped where it now stands, at
      index j, or kept. */
  lemma RemoveStep(cs: seq<Node>, k: nat, r: seq<Node>, j: nat, rule: Rule)
    requires k < |cs| && r == Survivors(cs[..k], rule) + cs[k..] && j == |Survivors(cs[..k], rule)|
    ensures IsDead(cs[k], rule) ==>
      j < |r| && r[..j] + r[j + 1..] == Survivors(cs[..k + 1], rule) + cs[k + 1..]
      && j == |Survivors(cs[..k + 1], rule)|
    ensures !IsDead(cs[k], rule) ==>
      r == Survivors(cs[..k + 1], rule) + cs[k + 1..] && j + 1 == |Survivors(cs[..k + 1], rule)|
  {
    var s := Survivors(cs[..k], rule);
    assert cs[..k + 1] == cs[..k] + [cs[k]];
    SurvivorsAppend(cs[..k], [cs[k]], rule);
    assert cs[k..] == [cs[k]] + cs[k + 1..];
    if IsDead(cs[k], rule) {
      assert r[..j] == s;
      assert r[j + 1..] == cs[k + 1..];
    } else {
      assert s + cs[k..] == (s + [cs[k]]) + cs[k + 1..];
    }
  }

  /** The loop over `findall("Package")` of one branch: each dead package is
      removed from the branch where it currently stands. removed tells
      whether anything went. */
  method RemoveDeadInBranch(cs: seq<Node>, rule: Rule) returns (r: seq<Node>, removed: bool)
    ensures r == Survivors(cs, rule)
    ensures removed <==> exists i :: 0 <= i < |cs| && IsDead(cs[i], rule)
  {
    r := cs;
    removed := false;
    var j := 0;
    for k := 0 to |cs|
      invariant r == Survivors(cs[..k], rule) + cs[k..]
      invariant j == |Survivors(cs[..k], rule)|
      invariant removed <==> DeadBefore(cs, k, rule)
    {
      RemoveStep(cs, k, r, j, rule);
      DeadBeforeStep(cs, k, rule);
      if IsDead(cs[k], rule) {
        r := r[..j] + r[j + 1..];
        removed := true;
      } else {
        j := j + 1;
      }
    }
    assert cs[..|cs|] == cs;
  }

  /** The server tree after the branches are cleaned in the given order; a
      branch the tree lacks is skipped. */
  function PruneBranches(root: Node, rule: Rule, branches: seq<string>): Node
    decreases |branches|
  {
    if branches == [] then root
    else PruneBranches(PruneOne(root, rule, branches[0]), rule, branches[1..])
  }

  /** The tree after one branch is cleaned; a branch the tree lacks is skipped. */
  function PruneOne(root: Node, rule: Rule, branch: string): Node {
    match Locate(root, branch)
    case Some(s) => WithBranchChildren(root, s, Survivors(BranchAt(root, s).children, rule))
    case None => root
  }

  /** Some branch, at the time it is cleaned, holds a dead package. */
  predicate AnyDead(root: Node, rule: Rule, branches: seq<string>)
    decreases |branches|
  {
    if branches == [] then false
    else
      match Locate(root, branches[0])
      case Some(s) =>
        var cs := BranchAt(root, s).children;
        (exists i :: 0 <= i < |cs| && IsDead(cs[i], rule))
        || AnyDead(WithBranchChildren(root, s, Survivors(cs, rule)), rule, branches[1..])
      case None => AnyDead(root, rule, branches[1..])
  }

  lemma WithSameChildren(root: Node, loc: Loc)
    requires ValidLoc(root, loc)
    ensures WithBranchChildren(root, loc, BranchAt(root, loc).children) == root
  {
  }

  /** With no dead package anywhere it looks, the clean-up leaves the tree as it is. */
  lemma {:induction false} PruneNothingDead(root: Node, rule: Rule, branches: seq<string>)
    requires !AnyDead(root, rule, branches)
    ensures PruneBranches(root, rule, branches) == root
    decreases |branches|
  {
    if branches != [] {
      match Locate(root, branches[0])
      case Some(s) =>
        var cs := BranchAt(root, s).children;
        SurvivorsUnchanged(cs, rule);
        WithSameChildren(root, s);
        PruneNothingDead(root, rule, branches[1..]);
      case None =>
        PruneNothingDead(root, rule, branches[1..]);
    }
  }

  /** The branch the name locates holds no dead package (or is absent). */
  predicate Clean(root: Node, rule: Rule, branch: string) {
    match Locate(root, branch)
    case None => true
    case Some(s) =>
      var cs := BranchAt(root, s).children;
      forall i :: 0 <= i < |cs| ==> !IsDead(cs[i], rule)
  }

  /** With every listed branch clean, no branch holds a dead package when
      the clean-up reaches it. */
  lemma {:induction false} NoDeadFromClean(root: Node, rule: Rule, branches: seq<string>)
    requires forall b :: b in branches ==> Clean(root, rule, b)
    ensures !AnyDead(root, rule, branches)
    decreases |branches|
  {
    if branches != [] {
      assert Clean(root, rule, branches[0]);
      match Locate(root, branches[0]) {
        case Some(s) =>
          var cs := BranchAt(root, s).children;
          SurvivorsUnchanged(cs, rule);
          WithSameChildren(root, s);
        case None =>
      }
      NoDeadFromClean(root, rule, branches[1..]);
    }
  }

  /** Find reads only the tags. */
  lemma {:induction false} FindSameTags(cs: seq<Node>, ds: seq<Node>, tag: string)
    requires |cs| == |ds| && forall j :: 0 <= j < |cs| ==> cs[j].tag == ds[j].tag
    ensures Find(cs, tag) == Find(ds, tag)
  {
    if cs != [] && cs[0].tag != tag {
      FindSameTags(cs[1..], ds[1..], tag);
    }
  }

  /** Removing packages does not change which element a non-package tag finds. */
  lemma {:induction false} FindSurvivors(cs: seq<Node>, rule: Rule, tag: string)
    requires tag != "Package"
    ensures match Find(cs, tag)
            case None => Find(Survivors(cs, rule), tag).None?
            case Some(i) => Find(Survivors(cs, rule), tag).Some?
                            && Survivors(cs, rule)[Find(Survivors(cs, rule), tag).value] == cs[i]
  {
    if cs != [] && cs[0].tag != tag {
      var rest := Survivors(cs[1..], rule);
      FindSurvivors(cs[1..], rule, tag);
      if IsDead(cs[0], rule) {
        assert Survivors(cs, rule) == rest;
      } else {
        var all := [cs[0]] + rest;
        assert Survivors(cs, rule) == all;
        assert all[1..] == rest;
      }
    }
  }

  /** After one branch is cleaned it is clean, and every other clean branch
      stays clean, as long as no branch is itself a package. */
  lemma PruneOneKeepsClean(root: Node, rule: Rule, done: string, b: string)
    requires done != "Package" && b != "Package"
    requires b == done || Clean(root, rule, b)
    ensures Clean(PruneOne(root, rule, done), rule, b)
  {
    match Locate(root, done)
    case None =>
    case Some(s) =>
      var next := PruneOne(root, rule, done);
      var kept := Survivors(BranchAt(root, s).children, rule);
      assert next == WithBranchChildren(root, s, kept);
      if b == done {
        DoneIsClean(root, rule, done, s);
      } else if b != root.tag {
        match s
        case AtRoot =>
          FindSurvivors(root.children, rule, b);
        case AtChild(i) =>
          FindSameTags(root.children, next.children, b);
          assert Find(root.children, b) != Some(i);
      } else if s.AtChild? {
        assert BranchAt(next, AtRoot) == next;
        forall j | 0 <= j < |next.children|
          ensures !IsDead(next.children[j], rule)
        {
          if j == s.index {
            assert next.children[j].tag == done;
          } else {
            assert next.children[j] == root.children[j];
          }
        }
      }
  }

  /** The branch just cleaned is clean. */
  lemma DoneIsClean(root: Node, rule: Rule, done: string, s: Loc)
    requires Locate(root, done) == Some(s)
    ensures Clean(PruneOne(root, rule, done), rule, done)
  {
    var next := PruneOne(root, rule, done);
    if s.AtChild? {
      var i := s.index;
      assert next.children[i].tag == done;
      assert forall j :: 0 <= j < i ==> next.children[j] == root.children[j];
      FindIs(next.children, done, i);
    }
  }

  /** A branch cleaned on the way, or clean from the start, is clean at the end. */
  lemma {:induction false} PruneKeepsClean(root: Node, rule: Rule, branches: seq<string>, b: string)
    requires "Package" !in branches && b != "Package"
    requires b in branches || Clean(root, rule, b)
    ensures Clean(PruneBranches(root, rule, branches), rule, b)
    decreases |branches|
  {
    if branches != [] {
      var next := PruneOne(root, rule, branches[0]);
      if b == branches[0] || Clean(root, rule, b) {
        PruneOneKeepsClean(root, rule, branches[0], b);
      }
      PruneKeepsClean(next, rule, branches[1..], b);
    }
  }

  /** A second clean-up of the same branches finds nothing dead and leaves
      the tree as the first left it. */
  lemma PruneIdempotent(root: Node, rule: Rule, branches: seq<string>)
    requires "Package" !in branches
    ensures !AnyDead(PruneBranches(root, rule, branches), rule, branches)
    ensures PruneBranches(PruneBranches(root, rule, branches), rule, branches) == PruneBranches(root, rule, branches)
  {
    var pruned := PruneBranches(root, rule, branches);
    forall b | b in branches
      ensures Clean(pruned, rule, b)
    {
      PruneKeepsClean(root, rule, branches, b);
    }
    NoDeadFromClean(pruned, rule, branches);
    PruneNothingDead(pruned, rule, branches);
  }

  /** RemoveDeadPackages from the loaded server tree: without a server index
      nothing happens; otherwise every listed branch is cleaned in place, and
      removed says whether any package went (which message is shown). */
  method RemoveDeadPackages(server: IndexTree?, present: set<string>, branches: seq<string>) returns (removed: bool)
    modifies server
    ensures server == null ==> !removed
    ensures server != null ==> server.Root() == PruneBranches(old(server.Root()), Missing(present), branches)
                               && (removed <==> AnyDead(old(server.Root()), Missing(present), branches))
  {
    removed := false;
    if server == null {
      return;
    }
    ghost var start := server.Root();
    for k := 0 to |branches|
      invariant PruneBranches(server.Root(), Missing(present), branches[k..]) == PruneBranches(start, Missing(present), branches)
      invariant AnyDead(start, Missing(present), branches) <==> removed || AnyDead(server.Root(), Missing(present), branches[k..])
    {
      assert branches[k..][1..] == branches[k + 1..];
      var s := Locate(server.Root(), branches[k]);
      if s.Some? {
        var kids := BranchAt(server.Root(), s.value).children;
        var left, any := RemoveDeadInBranch(kids, Missing(present));
        server.StoreBranch(s.value, left);
        removed := removed || any;
      }
    }
  }

  /** A package the local loop cannot handle: `get("val", None)` gives None
      and `.replace` raises AttributeError. */
  predicate Unnamed(p: Node) {
    p.tag == "Package" && FileNameOf(p).None?
  }

  /** The local loop over the packages of one branch: it removes each
      package whose subdirectory is gone, and stops (None) at the first
      package without a file name. */
  method RemoveGoneInBranch(cs: seq<Node>, rule: Rule) returns (r: Option<seq<Node>>)
    ensures r.Some? <==> forall i :: 0 <= i < |cs| ==> !Unnamed(cs[i])
    ensures r.Some? ==> r.value == Survivors(cs, rule)
  {
    var left := cs;
    var j := 0;
    for k := 0 to |cs|
      invariant left == Survivors(cs[..k], rule) + cs[k..]
      invariant j == |Survivors(cs[..k], rule)|
      invariant forall i :: 0 <= i < k ==> !Unnamed(cs[i])
    {
      if Unnamed(cs[k]) {
        return None;
      }
      RemoveStep(cs, k, left, j, rule);
      if IsDead(cs[k], rule) {
        left := left[..j] + left[j + 1..];
      } else {
        j := j + 1;
      }
    }
    assert cs[..|cs|] == cs;
    r := Some(left);
  }

  /** Some branch, at the time the local loop reaches it, holds a package
      without a file name. */
  predicate AnyUnnamed(root: Node, rule: Rule, branches: seq<string>)
    decreases |branches|
  {
    if branches == [] then false
    else
      match Locate(root, branches[0])
      case Some(s) =>
        var cs := BranchAt(root, s).children;
        (exists i :: 0 <= i < |cs| && Unnamed(cs[i]))
        || AnyUnnamed(WithBranchChildren(root, s, Survivors(cs, rule)), rule, branches[1..])
      case None => AnyUnnamed(root, rule, branches[1..])
  }

  /** The clean-up of the local index in pack.py over `root_list`: ok is
      false when the loop stops on a package without a file name; otherwise
      every branch keeps exactly its live packages. The source's rule is
      Gone; Orphaned is the corrected one. */
  method RemoveGonePackages(root: IndexTree, rule: Rule, branches: seq<string>) returns (ok: bool)
    modifies root
    ensures ok <==> !AnyUnnamed(old(root.Root()), rule, branches)
    ensures ok ==> root.Root() == PruneBranches(old(root.Root()), rule, branches)
  {
    ghost var start := root.Root();
    for k := 0 to |branches|
      invariant PruneBranches(root.Root(), rule, branches[k..]) == PruneBranches(start, rule, branches)
      invariant AnyUnnamed(start, rule, branches) <==> AnyUnnamed(root.Root(), rule, branches[k..])
    {
      assert branches[k..][1..] == branches[k + 1..];
      var s := Locate(root.Root(), branches[k]);
      if s.Some? {
        var kids := BranchAt(root.Root(), s.value).children;
        var left := RemoveGoneInBranch(kids, rule);
        if left.None? {
          return false;
        }
        root.StoreBranch(s.value, left.value);
      }
    }
    ok := true;
  }

  /** A package pack.py has just built for a live subdirectory, as the
      clean-up is written: with a revision in its name it always survives;
      without one it is removed exactly when the subdirectory's name ends in
      `-r<digits>` and its head is neither in `SelfOrParent` nor itself a
      live subdirectory. */
  lemma FreshPackageSurvival(p: Node, liveDirs: set<string>, targetName: string, sub: string, epoch: nat, norevision: bool)
    requires p.tag == "Package"
    requires sub in liveDirs && sub != "" && '/' !in sub && ':' !in sub
    requires FileNameOf(p) == Some(Paths.NewFileName(targetName, sub, epoch, norevision, false))
    ensures IsDead(p, Gone(liveDirs)) <==>
      norevision && Paths.StripRevision(sub) !in SelfOrParent && Paths.StripRevision(sub) !in liveDirs
  {
    Paths.NewFileNameLeadsBack(targetName, sub, epoch, norevision);
  }

  /** A subdirectory whose whole name is a revision, packed without
      revision, leaves an empty head: the entry points at the source
      directory itself and is kept. */
  lemma EmptyHeadKept(p: Node)
    requires p.tag == "Package"
    requires FileNameOf(p) == Some(Paths.NewFileName("dlc", "-r5", 7, true, false))
    ensures !IsDead(p, Gone({"-r5"})) && !IsDead(p, Gone({}))
  {
    assert "" + "-r" + "5" == "-r5";
    SelfOrParentHeadKept(p, {"-r5"}, "dlc", "", "5", 7);
    SelfOrParentHeadKept(p, {}, "dlc", "", "5", 7);
  }

  /** A subdirectory named `<head>-r<digits>` with a head in
      `SelfOrParent` (`-r5`, `.-r5`, `..-r5`), packed without revision, is
      looked up as the source directory or its parent and is kept whatever
      subdirectories are live. */
  lemma SelfOrParentHeadKept(p: Node, liveDirs: set<string>, targetName: string, head: string, digits: string, epoch: nat)
    requires p.tag == "Package"
    requires head in SelfOrParent && Text.IsDigits(digits)
    requires FileNameOf(p) == Some(Paths.NewFileName(targetName, head + "-r" + digits, epoch, true, false))
    ensures !IsDead(p, Gone(liveDirs)) && !IsDead(p, Orphaned(liveDirs))
  {
    var sub := head + "-r" + digits;
    Paths.DigitsHaveNoSeparator(digits);
    assert '/' !in sub && ':' !in sub by {
      assert forall k :: 0 <= k < |sub| ==> sub[k] in head || sub[k] in "-r" || sub[k] in digits;
    }
    Paths.NewFileNameLeadsBack(targetName, sub, epoch, true);
    Paths.StripAppendedRevision(head, digits);
  }

  /** The clean-up as written removes a package it has just built: under
      --norevision, subdirectory `a-r1` is packed as `dlc/a-r1.zip`, whose
      stem loses `-r1` and so names the absent subdirectory `a`. */
  lemma NoRevisionStampPurged(p: Node)
    requires p.tag == "Package"
    requires FileNameOf(p) == Some(Paths.NewFileName("dlc", "a-r1", 5, true, false))
    ensures IsDead(p, Gone({"a-r1"}))
  {
    assert Paths.StripRevision("a-r1") == "a" by {
      assert "a" + "-r" + "1" == "a-r1";
      Paths.StripAppendedRevision("a", "1");
    }
    assert "a" !in SelfOrParent && "a" !in {"a-r1"} by {
      assert "a"[0] != "."[0] && |"a"| != |""| && |"a"| != |".."| && |"a"| != |"a-r1"|;
    }
    FreshPackageSurvival(p, {"a-r1"}, "dlc", "a-r1", 5, true);
  }

  /** With the corrected rule every package just built for a live
      subdirectory survives the next clean-up, in both modes and whatever
      colons the subdirectory's name holds. */
  lemma FreshPackageSurvivesOrphaned(p: Node, liveDirs: set<string>, targetName: string, sub: string, epoch: nat, norevision: bool)
    requires sub in liveDirs && sub != "" && '/' !in sub
    requires FileNameOf(p) == Some(Paths.NewFileName(targetName, sub, epoch, norevision, false))
    ensures !IsDead(p, Orphaned(liveDirs))
  {
    Paths.FreshRawStem(targetName, sub, epoch, norevision);
    if !norevision {
      Paths.StripAppendedRevision(sub, Text.NatToString(epoch));
    }
  }

  /** The clean-up as written reads a colon in a subdirectory's name as a
      separator: the package built with revisions for the live subdirectory
      `a:b`, stored as `dlc/a:b-r5.zip`, is looked up as `b` and removed.
      The corrected rule keeps it. */
  lemma ColonSubdirectoryPurged(p: Node)
    requires p.tag == "Package"
    requires FileNameOf(p) == Some(Paths.NewFileName("dlc", "a:b", 5, false, false))
    ensures IsDead(p, Gone({"a:b"}))
    ensures !IsDead(p, Orphaned({"a:b"}))
  {
    assert "b" !in SelfOrParent && "b" !in {"a:b"} by {
      assert "b"[0] != "."[0] && |"b"| != |""| && |"b"| != |".."| && |"b"| != |"a:b"|;
    }
    Paths.ColonSplitsSubdirectory("dlc", "a", "b", 5);
    assert "a" + ":" + "b" == "a:b";
    FreshPackageSurvivesOrphaned(p, {"a:b"}, "dlc", "a:b", 5, false);
  }

  /** The corrected rule removes only what the clean-up as written removes. */
  lemma OrphanedOnlyIfGone(p: Node, liveDirs: set<string>)
    requires IsDead(p, Orphaned(liveDirs))
    ensures IsDead(p, Gone(liveDirs))
  {
  }
}
