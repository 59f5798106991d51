/** The `pathlib` rules the packer applies to file names (POSIX separator),
    the `-r<digits>` revision suffix and revisioned archive names. */
module Paths {
  import opened Wrappers
  import opened Text

  /** The last index of c in s (`str.rfind`). */
  function LastIndexOf(s: string, c: char): (r: Option<nat>)
    ensures r.Some? ==> r.value < |s| && s[r.value] == c && c !in s[r.value + 1..]
    ensures r.None? ==> c !in s
  {
    if s == [] then None
    else if s[|s| - 1] == c then Some(|s| - 1)
    else
      var r := LastIndexOf(s[..|s| - 1], c);
      assert r.Some? ==> s[r.value + 1..] == s[..|s| - 1][r.value + 1..] + [s[|s| - 1]];
      assert r.None? ==> s == s[..|s| - 1] + [s[|s| - 1]];
      r
  }

  lemma LastIndexOfIs(s: string, c: char, k: nat)
    requires k < |s| && s[k] == c && c !in s[k + 1..]
    ensures LastIndexOf(s, c) == Some(k)
  {
    var i := LastIndexOf(s, c).value;
  }

  /** `Path(p).name`: the last component of p; empty and "." components do not count. */
  function Name(p: string): string
    decreases |p|
  {
    match LastIndexOf(p, '/')
    case None => if p == "." then "" else p
    case Some(j) =>
      var segment := p[j + 1..];
      if segment == "" || segment == "." then Name(p[..j]) else segment
  }

  /** The last component holds no separator. */
  lemma {:induction false} NameHasNoSlash(p: string)
    ensures '/' !in Name(p)
    decreases |p|
  {
    match LastIndexOf(p, '/')
    case None =>
    case Some(j) =>
      var segment := p[j + 1..];
      if segment == "" || segment == "." {
        NameHasNoSlash(p[..j]);
      }
  }

  /** `Path(p).stem` holds no separator either. */
  lemma PathStemHasNoSlash(p: string)
    ensures '/' !in PathStem(p)
  {
    NameHasNoSlash(p);
    var n := Name(p);
    match LastIndexOf(n, '.')
    case None =>
    case Some(i) =>
      if 0 < i < |n| - 1 {
        assert forall c :: c in n[..i] ==> c in n;
      }
  }

  /** `Path(name).suffix`: from the last dot on, unless that dot leads or ends the name. */
  function Suffix(name: string): string {
    match LastIndexOf(name, '.')
    case Some(i) => if 0 < i < |name| - 1 then name[i..] else ""
    case None => ""
  }

  /** `Path(name).stem`: the name without its suffix. */
  function Stem(name: string): string {
    match LastIndexOf(name, '.')
    case Some(i) => if 0 < i < |name| - 1 then name[..i] else name
    case None => name
  }

  /** `path.suffix[1:]`: the extension without its dot. */
  function Ext(name: string): (r: string)
    ensures |r| < |name| || r == ""
  {
    var s := Suffix(name);
    if s == "" then "" else s[1..]
  }

  /** `Path(s).stem` of a whole path. */
  function PathStem(s: string): string {
    Stem(Name(s))
  }

  /** "-r" starts at index j of s. */
  predicate DashRAt(s: string, j: int) {
    0 <= j && j + 2 <= |s| && s[j] == '-' && s[j + 1] == 'r'
  }

  /** Where `rsplit("-r", maxsplit=1)` splits: the last occurrence of "-r". */
  function LastDashR(s: string): (r: Option<nat>)
    ensures r.Some? ==> DashRAt(s, r.value) && forall j :: r.value < j ==> !DashRAt(s, j)
    ensures r.None? ==> forall j :: !DashRAt(s, j)
  {
    if |s| < 2 then None
    else if s[|s| - 2] == '-' && s[|s| - 1] == 'r' then Some(|s| - 2)
    else
      var r := LastDashR(s[..|s| - 1]);
      assert forall j :: DashRAt(s, j) && j + 2 < |s| ==> DashRAt(s[..|s| - 1], j);
      r
  }

  /** The stem ends in "-r" followed by digits. */
  ghost predicate HasRevisionSuffix(stem: string) {
    exists k :: DashRAt(stem, k) && IsDigits(stem[k + 2..])
  }

  /** The revision split of pack.py: split the stem at its last "-r" and keep the
      head when the tail is all digits; otherwise keep the whole stem. */
  function StripRevision(stem: string): (r: string)
    ensures r != stem ==> |r| + 2 < |stem| && stem[..|r|] == r && DashRAt(stem, |r|) && IsDigits(stem[|r| + 2..])
  {
    match LastDashR(stem)
    case None => stem
    case Some(i) => if IsDigits(stem[i + 2..]) then stem[..i] else stem
  }

  /** The split changes a stem exactly when it carries a revision suffix. */
  lemma StripRevisionChanges(stem: string)
    ensures StripRevision(stem) != stem <==> HasRevisionSuffix(stem)
  {
    if HasRevisionSuffix(stem) {
      var k :| DashRAt(stem, k) && IsDigits(stem[k + 2..]);
      var i := LastDashR(stem).value;
      assert i == k;
    }
  }

  /** `s + "-r" + d` with d digits splits back to s: no later "-r" can start inside d. */
  lemma StripAppendedRevision(s: string, d: string)
    requires IsDigits(d)
    ensures StripRevision(s + "-r" + d) == s
  {
    var t := s + "-r" + d;
    assert DashRAt(t, |s|);
    var i := LastDashR(t).value;
    assert i == |s|;
    assert t[|s| + 2..] == d;
    assert t[..|s|] == s;
  }

  /** LastDashR is fixed by the last "-r". */
  lemma LastDashRIs(s: string, k: nat)
    requires DashRAt(s, k) && forall j :: k < j ==> !DashRAt(s, j)
    ensures LastDashR(s) == Some(k)
  {
    var r := LastDashR(s);
    if r.Some? {
      assert !(k < r.value) && !(r.value < k);
    }
  }

  lemma StripRevisionExamples()
    ensures StripRevision("a-r1-r2") == "a-r1"
    ensures StripRevision("buildings") == "buildings"
    ensures StripRevision("menu-rx") == "menu-rx"
  {
    assert IsDigits("2");
    StripAppendedRevision("a-r1", "2");
    assert "a-r1" + "-r" + "2" == "a-r1-r2";
    var b := "buildings";
    assert forall k :: 0 <= k < |b| ==> b[k] != '-';
    assert LastDashR(b) == None;
    var m := "menu-rx";
    assert m[5] != '-';
    LastDashRIs(m, 4);
    assert !IsDigits(m[6..]) by {
      assert m[6..][0] == 'x';
    }
  }

  /** The name under which pack.py stores a freshly built package: the target
      directory's name, "/", the subdirectory name, "-r<epoch>" unless
      revisions are off, and ".zip" unless zipping is off. */
  function NewFileName(targetName: string, sub: string, epoch: nat, norevision: bool, nozip: bool): string {
    targetName + "/" + sub + (if norevision then "" else "-r" + NatToString(epoch)) + (if nozip then "" else ".zip")
  }

  /** The subdirectory a stored `FileName` value refers to, as pack.py's
      clean-up of local entries computes it. */
  function LocalSubdirectory(fileName: string): string {
    StripRevision(StoredStem(fileName))
  }

  /** `Path(fileName.replace(":", os.sep)).stem`. */
  function StoredStem(fileName: string): string {
    PathStem(ColonsToSlashes(fileName))
  }

  lemma NameOfLastSegment(a: string, segment: string)
    requires '/' !in segment && segment != "" && segment != "."
    ensures Name(a + "/" + segment) == segment
  {
    var p := a + "/" + segment;
    assert p[|a| + 1..] == segment;
    LastIndexOfIs(p, '/', |a|);
  }

  lemma StemOfZip(x: string)
    requires x != []
    ensures Stem(x + ".zip") == x
  {
    var n := x + ".zip";
    assert n[|x| + 1..] == "zip";
    LastIndexOfIs(n, '.', |x|);
    assert n[..|x|] == x;
  }

  lemma ColonsToSlashesAppend(a: string, b: string)
    requires ':' !in b
    ensures ColonsToSlashes(a + "/" + b) == ColonsToSlashes(a) + "/" + b
  {
    var p := a + "/" + b;
    var q := ColonsToSlashes(a) + "/" + b;
    assert forall i :: |a| + 1 <= i < |p| ==> p[i] == b[i - |a| - 1] && q[i] == b[i - |a| - 1];
    assert forall i :: |a| + 1 <= i < |p| ==> p[i] != ':' by {
      forall i | |a| + 1 <= i < |p|
        ensures p[i] != ':'
      {
        assert p[i] == b[i - |a| - 1];
        assert b[i - |a| - 1] in b;
      }
    }
  }

  lemma DigitsHaveNoSeparator(d: string)
    requires IsDigits(d)
    ensures ':' !in d && '/' !in d
  {
  }

  /** The subdirectory of a zip stored directly under a target directory is
      the archive's stem with its revision split off. */
  lemma LocalSubdirectoryOfZip(targetName: string, x: string)
    requires x != "" && '/' !in x && ':' !in x
    ensures LocalSubdirectory(targetName + "/" + x + ".zip") == StripRevision(x)
  {
    var segment := x + ".zip";
    assert targetName + "/" + x + ".zip" == targetName + "/" + segment;
    ColonsToSlashesAppend(targetName, segment);
    NameOfLastSegment(ColonsToSlashes(targetName), segment);
    StemOfZip(x);
  }

  /** A name built for subdirectory sub leads back to sub when it carries a
      revision. Without one the revision split still runs, so a
      subdirectory whose own name ends in `-r<digits>` leads to its head. */
  lemma NewFileNameLeadsBack(targetName: string, sub: string, epoch: nat, norevision: bool)
    requires sub != "" && '/' !in sub && ':' !in sub
    ensures LocalSubdirectory(NewFileName(targetName, sub, epoch, norevision, false))
            == if norevision then StripRevision(sub) else sub
  {
    var digits := NatToString(epoch);
    var x := if norevision then sub else sub + "-r" + digits;
    assert NewFileName(targetName, sub, epoch, norevision, false) == targetName + "/" + x + ".zip";
    if !norevision {
      DigitsHaveNoSeparator(digits);
      StripAppendedRevision(sub, digits);
    }
    LocalSubdirectoryOfZip(targetName, x);
  }

  /** The stem of a name built for sub: `<sub>-r<epoch>` with revisions,
      sub itself without. */
  lemma FreshStoredStem(targetName: string, sub: string, epoch: nat, norevision: bool)
    requires sub != "" && '/' !in sub && ':' !in sub
    ensures StoredStem(NewFileName(targetName, sub, epoch, norevision, false))
            == if norevision then sub else sub + "-r" + NatToString(epoch)
  {
    var digits := NatToString(epoch);
    var x := if norevision then sub else sub + "-r" + digits;
    assert NewFileName(targetName, sub, epoch, norevision, false) == targetName + "/" + x + ".zip";
    DigitsHaveNoSeparator(digits);
    ZipStem(targetName, x);
  }

  /** `Path(fileName).stem` with colons left as they are: the stem of the
      last `/`-separated segment. */
  function RawStem(fileName: string): string {
    PathStem(fileName)
  }

  /** The raw stem of a name built for sub is `<sub>-r<epoch>` with
      revisions and sub without, whatever colons sub holds. A directory
      name never holds a `/`. */
  lemma FreshRawStem(targetName: string, sub: string, epoch: nat, norevision: bool)
    requires sub != "" && '/' !in sub
    ensures RawStem(NewFileName(targetName, sub, epoch, norevision, false))
            == if norevision then sub else sub + "-r" + NatToString(epoch)
  {
    var digits := NatToString(epoch);
    var x := if norevision then sub else sub + "-r" + digits;
    var segment := x + ".zip";
    assert NewFileName(targetName, sub, epoch, norevision, false) == targetName + "/" + segment;
    DigitsHaveNoSeparator(digits);
    NameOfLastSegment(targetName, segment);
    StemOfZip(x);
  }

  /** Under a target directory, the stem of a zip is its name without ".zip". */
  lemma ZipStem(targetName: string, x: string)
    requires x != "" && '/' !in x && ':' !in x
    ensures StoredStem(targetName + "/" + x + ".zip") == x
  {
    var segment := x + ".zip";
    assert targetName + "/" + x + ".zip" == targetName + "/" + segment;
    ColonsToSlashesAppend(targetName, segment);
    NameOfLastSegment(ColonsToSlashes(targetName), segment);
    StemOfZip(x);
  }

  /** A revisioned name built for a subdirectory `<head>:<tail>` is looked
      up under tail alone: the clean-up reads the colon as a separator. */
  lemma ColonSplitsSubdirectory(targetName: string, head: string, tail: string, epoch: nat)
    requires tail != "" && '/' !in tail && ':' !in tail
    ensures LocalSubdirectory(NewFileName(targetName, head + ":" + tail, epoch, false, false)) == tail
  {
    var d := NatToString(epoch);
    DigitsHaveNoSeparator(d);
    var x := tail + "-r" + d;
    assert '/' !in x && ':' !in x by {
      assert forall k :: 0 <= k < |x| ==> x[k] in tail || x[k] in "-r" || x[k] in d;
    }
    var u := targetName + "/" + head;
    var name := NewFileName(targetName, head + ":" + tail, epoch, false, false);
    var slashed := u + "/" + x + ".zip";
    assert name == u + ":" + x + ".zip";
    assert ColonsToSlashes(name) == ColonsToSlashes(slashed) by {
      forall k | 0 <= k < |name|
        ensures ColonsToSlashes(name)[k] == ColonsToSlashes(slashed)[k]
      {
        if k != |u| {
          assert name[k] == slashed[k];
        }
      }
    }
    ZipStem(u, x);
    StripAppendedRevision(tail, d);
  }
}
