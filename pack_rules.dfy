/** The per-directory decisions pack.py takes before it builds a package:
    the revision status stored on the index root, the sub-branches the index
    gets, and whether an unchanged package can be left as it is. */
module PackRules {
  import opened Wrappers
  import opened Xml
  import Text

  /** The value the `revision` attribute takes in a mode: "0" without revisions, "1" with. */
  function RevisionValue(norevision: bool): (r: string)
    ensures Text.ParseInt(r) == Some(if norevision then 0 else 1)
  {
    Text.ParseNatToString(if norevision then 0 else 1);
    if norevision then "0" else "1"
  }

  /** `bool(int(root.attrib.get("revision", <mode value>)))`; None is the
      ValueError `int` raises on a value that is not an integer. */
  function RevisionStatus(attrib: map<string, string>, norevision: bool): (r: Option<bool>)
    ensures r.Some? <==> Text.ParseInt(GetItem(attrib, "revision", RevisionValue(norevision))).Some?
  {
    match Text.ParseInt(GetItem(attrib, "revision", RevisionValue(norevision)))
    case None => None
    case Some(v) => Some(v != 0)
  }

  /** Without a stored revision attribute the status is the current mode. */
  lemma RevisionStatusDefault(attrib: map<string, string>, norevision: bool)
    requires "revision" !in attrib
    ensures RevisionStatus(attrib, norevision) == Some(!norevision)
  {
  }

  /** A stored number reads back as "revisions on" exactly when it is not zero. */
  lemma RevisionStatusOfNumber(attrib: map<string, string>, norevision: bool, n: nat)
    requires "revision" in attrib && attrib["revision"] == Text.NatToString(n)
    ensures RevisionStatus(attrib, norevision) == Some(n != 0)
  {
    Text.ParseNatToString(n);
  }

  /** The revision lines of pack.py on the index root: read the status, then
      store the current mode. When `int` fails the run stops there and the
      root is left as it was. */
  method ApplyRevisionMode(root: IndexTree, norevision: bool) returns (status: Option<bool>)
    modifies root
    ensures status == RevisionStatus(old(root.attrib), norevision)
    ensures status.Some? ==> root.attrib == old(root.attrib)["revision" := RevisionValue(norevision)]
    ensures status.None? ==> root.attrib == old(root.attrib)
    ensures root.tag == old(root.tag) && root.children == old(root.children)
  {
    var stored := GetItem(root.attrib, "revision", if norevision then "0" else "1");
    var parsed := Text.ParseInt(stored);
    if parsed.None? {
      return None;
    }
    status := Some(parsed.value != 0);
    root.Set("revision", if norevision then "0" else "1");
  }

  /** Once the mode is stored, the next run in the same mode reads it back,
      and a run in the other mode reads the opposite of its own mode. */
  lemma StoredModeReadsBack(attrib: map<string, string>, stored: bool, norevision: bool)
    ensures RevisionStatus(attrib["revision" := RevisionValue(stored)], norevision) == Some(!stored)
  {
  }

  /** The six conditions under which pack.py reuses the archive it built
      before: no forced install, zipping on, the stored revision status equal
      to the current mode, the archive present, no priority given, and the
      subdirectory older than the archive (modification times in ns). */
  function ShouldSkip(forceInstall: bool, nozip: bool, revisionStatus: bool, norevision: bool,
                      archiveExists: bool, priorityGiven: bool, subdirMtime: int, archiveMtime: int): (r: bool)
    ensures r ==> archiveExists && subdirMtime < archiveMtime
  {
    !forceInstall && !nozip && revisionStatus == !norevision && archiveExists && !priorityGiven
    && subdirMtime < archiveMtime
  }

  /** A run in the other mode than the stored one always rebuilds. */
  lemma ModeSwitchRebuilds(attrib: map<string, string>, stored: bool, norevision: bool,
                           forceInstall: bool, nozip: bool, archiveExists: bool, priorityGiven: bool,
                           subdirMtime: int, archiveMtime: int)
    requires stored != norevision
    ensures var status := RevisionStatus(attrib["revision" := RevisionValue(stored)], norevision);
      status.Some? && !ShouldSkip(forceInstall, nozip, status.value, norevision, archiveExists, priorityGiven,
                                  subdirMtime, archiveMtime)
  {
    StoredModeReadsBack(attrib, stored, norevision);
  }

  /** Without a stored revision attribute the status condition always holds,
      and the decision rests on the other five. */
  lemma SkipWithoutStoredRevision(attrib: map<string, string>, norevision: bool,
                                  forceInstall: bool, nozip: bool, archiveExists: bool, priorityGiven: bool,
                                  subdirMtime: int, archiveMtime: int)
    requires "revision" !in attrib
    ensures var status := RevisionStatus(attrib, norevision);
      status.Some?
      && (ShouldSkip(forceInstall, nozip, status.value, norevision, archiveExists, priorityGiven, subdirMtime, archiveMtime)
          <==> !forceInstall && !nozip && archiveExists && !priorityGiven && subdirMtime < archiveMtime)
  {
    RevisionStatusDefault(attrib, norevision);
  }

  /** `force_install` after the sub-branches are set up: a new index file, or
      a sub-branch that had to be created. */
  function ForceInstall(indexExisted: bool, children: seq<Node>, initial: bool, tutorial: bool): bool {
    !indexExisted
    || (Find(children, "InitialPackages").None? && initial)
    || (Find(children, "TutorialPackages").None? && tutorial)
  }

  /** The children after a sub-branch is set up: appended, empty, when it is
      missing and asked for. */
  function WithBranch(cs: seq<Node>, tag: string, wanted: bool): seq<Node> {
    if Find(cs, tag).None? && wanted then cs + [Node(tag, map[], [])] else cs
  }

  /** The sub-branch among the branches to update, if it is there. */
  function BranchName(cs: seq<Node>, tag: string): seq<string> {
    if Find(cs, tag).Some? then [tag] else []
  }

  function PlannedChildren(cs: seq<Node>, initial: bool, tutorial: bool): seq<Node> {
    WithBranch(WithBranch(cs, "InitialPackages", initial), "TutorialPackages", tutorial)
  }

  /** `root_list`, each branch named by its tag: the root, then
      InitialPackages, then TutorialPackages. pack.py keeps the elements
      themselves; the first child with a sub-branch's tag stays that element
      while packages are inserted and removed, so the name locates it. */
  function PlannedBranches(rootTag: string, cs: seq<Node>, initial: bool, tutorial: bool): seq<string> {
    var c1 := WithBranch(cs, "InitialPackages", initial);
    [rootTag] + BranchName(c1, "InitialPackages") + BranchName(WithBranch(c1, "TutorialPackages", tutorial), "TutorialPackages")
  }

  /** One sub-branch: found, or created empty when asked for. */
  method OpenBranch(root: IndexTree, childTag: string, wanted: bool) returns (name: seq<string>, created: bool)
    modifies root
    ensures root.children == WithBranch(old(root.children), childTag, wanted)
    ensures name == BranchName(root.children, childTag)
    ensures created == (Find(old(root.children), childTag).None? && wanted)
    ensures root.tag == old(root.tag) && root.attrib == old(root.attrib)
  {
    var at := Find(root.children, childTag);
    created := false;
    if at.Some? {
      name := [childTag];
    } else if wanted {
      root.AppendChild(childTag);
      FindIs(root.children, childTag, |root.children| - 1);
      name := [childTag];
      created := true;
    } else {
      name := [];
    }
  }

  /** The sub-branch set-up of pack.py on the index root. */
  method PrepareBranches(root: IndexTree, indexExisted: bool, initial: bool, tutorial: bool)
    returns (branches: seq<string>, force: bool)
    modifies root
    ensures force == ForceInstall(indexExisted, old(root.children), initial, tutorial)
    ensures root.children == PlannedChildren(old(root.children), initial, tutorial)
    ensures branches == PlannedBranches(root.tag, old(root.children), initial, tutorial)
    ensures root.tag == old(root.tag) && root.attrib == old(root.attrib)
  {
    ghost var start := root.children;
    var initialName, initialNew := OpenBranch(root, "InitialPackages", initial);
    FindPrefix(start, root.children, "TutorialPackages");
    var tutorialName, tutorialNew := OpenBranch(root, "TutorialPackages", tutorial);
    branches := [root.tag] + initialName + tutorialName;
    force := !indexExisted || initialNew || tutorialNew;
  }

  /** Appending an InitialPackages element does not change where (or whether)
      a TutorialPackages element is found. */
  lemma FindPrefix(start: seq<Node>, middle: seq<Node>, tag: string)
    requires middle == start || middle == start + [Node("InitialPackages", map[], [])]
    requires tag != "InitialPackages"
    ensures Find(middle, tag) == Find(start, tag)
  {
    match Find(start, tag)
    case None =>
    case Some(k) => FindIs(middle, tag, k);
  }

  /** Setting up one sub-branch keeps the children there were, and the
      sub-branch is found afterwards exactly when it existed or was asked for. */
  lemma WithBranchShape(cs: seq<Node>, tag: string, wanted: bool)
    ensures var r := WithBranch(cs, tag, wanted);
      |cs| <= |r| && r[..|cs|] == cs
      && (Find(r, tag).Some? <==> wanted || Find(cs, tag).Some?)
  {
    if Find(cs, tag).None? && wanted {
      FindIs(cs + [Node(tag, map[], [])], tag, |cs|);
    }
  }

  /** The children there were keep their place. */
  lemma PlannedChildrenKeep(cs: seq<Node>, initial: bool, tutorial: bool)
    ensures var c := PlannedChildren(cs, initial, tutorial);
      |cs| <= |c| && c[..|cs|] == cs
  {
    var c1 := WithBranch(cs, "InitialPackages", initial);
    WithBranchShape(cs, "InitialPackages", initial);
    WithBranchShape(c1, "TutorialPackages", tutorial);
    PrefixOfPrefix(cs, c1, PlannedChildren(cs, initial, tutorial));
  }

  /** The root comes first; InitialPackages is listed, second, exactly when
      it existed or was asked for, and TutorialPackages, last, likewise; a
      listed sub-branch is a child of the new root. */
  lemma PlannedBranchesShape(rootTag: string, cs: seq<Node>, initial: bool, tutorial: bool)
    ensures var c := PlannedChildren(cs, initial, tutorial);
      var bs := PlannedBranches(rootTag, cs, initial, tutorial);
      var hasInitial := initial || Find(cs, "InitialPackages").Some?;
      var hasTutorial := tutorial || Find(cs, "TutorialPackages").Some?;
      |bs| == 1 + (if hasInitial then 1 else 0) + (if hasTutorial then 1 else 0)
      && bs[0] == rootTag
      && (hasInitial ==> bs[1] == "InitialPackages" && Find(c, "InitialPackages").Some?)
      && (hasTutorial ==> bs[|bs| - 1] == "TutorialPackages" && Find(c, "TutorialPackages").Some?)
  {
    var c1 := WithBranch(cs, "InitialPackages", initial);
    var c := WithBranch(c1, "TutorialPackages", tutorial);
    WithBranchShape(cs, "InitialPackages", initial);
    WithBranchShape(c1, "TutorialPackages", tutorial);
    FindPrefix(cs, c1, "TutorialPackages");
    if Find(c1, "InitialPackages").Some? {
      var k := Find(c1, "InitialPackages").value;
      assert c[..|c1|] == c1;
      assert c[k] == c1[k];
      assert Find(c, "InitialPackages").Some?;
    }
  }

  lemma PrefixOfPrefix(a: seq<Node>, b: seq<Node>, c: seq<Node>)
    requires |a| <= |b| && b[..|a|] == a
    requires |b| <= |c| && c[..|b|] == b
    ensures c[..|a|] == a
  {
    assert c[..|a|] == c[..|b|][..|a|];
  }
}
