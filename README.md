# tstodlc core, modelled in Dafny

tstodlc packs directories of game assets for "The Simpsons: Tapped Out" into
downloadable content (DLC). For each source subdirectory it writes two files:

- a zip archive "1" holding the assets;
- a binary catalog "0" that lists every asset: its skip width, name,
  extension, size and priority, framed by a signature, a size field and a
  CRC-32.

Both files are zipped under a revisioned name, `<sub>-r<epoch>.zip`. The tool
keeps an XML index of the packages (`DlcIndex`, optionally with
`InitialPackages` and `TutorialPackages` sub-branches). It merges that index
into the server's index and prunes entries whose files have gone.

This project models that core:

- **The catalog encoder** of `pack.py`: the header, the records, the size
  patched at offset 6, and the trailing CRC.
  - It is written as imperative code over a byte file (`ByteFiles.ByteFile`:
    write, seek, tell, read, reopen), proved against pure specification
    functions (`Catalog.CatalogBlob`).
  - The model includes a decoder, with a round trip proved from the blob
    back to the entries.
- **The per-directory rules of `pack.py`**:
  - the revision status and priority stored on the index root;
  - the sub-branch set-up;
  - the clean-up of local entries whose subdirectory is gone;
  - the `-r<digits>` revision split and the new file name;
  - the "skip repackaging" predicate.
- **The index reconciliation of `index.py`**:
  - `GetItemfromDict`, `GetSubElementAttributes` and `SearchPackages`;
  - `UpdatePackageEntry` (attribute defaults, sub-element updates, insertion
    at index 0);
  - the server merge `UpdateServerIndex`;
  - the pruner `RemoveDeadPackages`.

  An XML element is the datatype `Xml.Node(tag, attrib, children)`. The
  mutable index is the class `Xml.IndexTree`. The branch algorithms are
  methods with loops, proved equal to specification functions, and their
  results are stored back into the tree in place.

Modules:

| file | module | what it holds |
|---|---|---|
| wrappers.dfy | Wrappers | `Option`, `Result` |
| bytes.dfy | Bytes | bytes, big-endian `to_bytes`, ASCII encoding, the zlib CRC-32 as a bit-vector function |
| text.dfy | Text | digit strings, `int()` and `str()` on integers, `replace(":", sep)`, `split(":", 1)[-1]` |
| paths.dfy | Paths | `Path.name`, `.stem`, `.suffix`, the revision split, new file names |
| xml.dfy | Xml | elements, `GetItemfromDict`, `find`, `GetSubElementAttributes`, `SearchPackages`, branch lookup, `IndexTree` |
| bytefile.dfy | ByteFiles | the binary file `pack.py` writes the catalog into |
| catalog.dfy | Catalog | the catalog layout as functions, and its properties |
| catalog_decoder.dfy | CatalogDecoder | a decoder and the round trip |
| catalog_writer.dfy | CatalogWriter | the writer, step by step, with its error cases |
| pack_rules.dfy | PackRules | revision status, skip predicate, sub-branches |
| package_entry.dfy | PackageEntry | `UpdatePackageEntry` |
| server_index.dfy | ServerIndex | `UpdateServerIndex` |
| prune.dfy | Prune | `RemoveDeadPackages` and the local clean-up |

Where the prose description of the system and the code disagree, the model
follows the code:

- Every integer field is big-endian (`int.to_bytes` with the default byte
  order), not little-endian.
- Package matching is by the exact `FileName/@val` string. It does not
  ignore revisions.
- When `UpdateServerIndex` finds no server match, it calls
  `UpdatePackageEntry` on the server branch. It passes only `platform`,
  `minVersion`, `tier`, the sizes, the CRC and the file name, with
  language None. The other attributes get their defaults; they are not
  inherited from the local record.
- Reconciliation is not idempotent. A package the server lacked is first
  entered with defaulted attributes. A second identical pass finds it and
  replaces it with the local element itself, whose attributes may differ
  (`ServerIndex.MergeTwiceDiffers`). From the second pass on, a further
  pass changes nothing (`ServerIndex.MergeThirdPassIsSecond`).

Error behaviour:

- An exception in the source (`OverflowError` from `to_bytes`, `ValueError`
  from `int`, `AttributeError` on a missing file name) ends the run. It is
  modelled as a `Failure`/`None` result or a `false` flag.
- The state reached before the exception is stated where the source changes
  it before raising, for example the root's `priority` attribute after a
  later entry overflows. The local clean-up is the exception; see
  "Left out".

## Model

| member | source | states |
|---|---|---|
| Bytes.BigEndianRoundTrip | src/tstodlc/tools/pack.py:466 | `n.to_bytes(length=k)` for `n < 256^k` is read back as n, most significant byte first |
| Bytes.AsciiRoundTrip | src/tstodlc/tools/pack.py:37 | `str.encode()` on ASCII text is one byte per character and decodes back to the text |
| Text.ParseInt | src/tstodlc/tools/pack.py:480 | `int(s)` succeeds exactly on an optionally signed, non-empty digit string |
| Text.NatToStringValue | src/tstodlc/tools/pack.py:485 | `str(p)` is a digit string whose value is p |
| Text.ParseNatToString | src/tstodlc/tools/pack.py:479-485 | `int(str(p)) == p`: a stored priority reads back as the same number |
| Text.ColonsToSlashes | src/tstodlc/tools/index.py:301 | `replace(":", os.sep)`: same length, each colon becomes a separator, every other character kept |
| Text.FirstColon | src/tstodlc/tools/index.py:223 | the index of the first colon, if any, with no colon before it; None exactly when there is no colon |
| Text.AfterFirstColonOf | src/tstodlc/tools/index.py:223 | `split(":", maxsplit=1)[-1]` of `a + ":" + b`, a without colons, is b |
| Text.AfterFirstColonExample | src/tstodlc/tools/index.py:223 | only the first colon splits: "a:b:c" gives "b:c" |
| Xml.Get | src/tstodlc/tools/index.py:11-15 | a value exactly when the key is present, and then the stored value |
| Xml.GetItem | src/tstodlc/tools/index.py:11-15 | `GetItemfromDict`: the stored value when the key is present, else the default |
| Xml.GetItemAfterSet | src/tstodlc/tools/index.py:11-15 | after `set(key, v)` the key reads v and every other key reads as before |
| Xml.Find | src/tstodlc/tools/index.py:19 | `find(tag)`: the first child with the tag; None exactly when no child has it |
| Xml.Attr | src/tstodlc/tools/index.py:18-23 | the attributes of the first child with the tag, present exactly when `find` succeeds |
| Xml.GetSubElementAttributes | src/tstodlc/tools/index.py:18-23 | the first such child's attributes, else the empty map |
| Xml.SearchPackages | src/tstodlc/tools/index.py:26-32 | no more results than children, and every result is a `Package` whose file name is exactly the one asked for |
| Xml.SearchPackagesExactly | src/tstodlc/tools/index.py:26-32 | an element is found iff it is a child, is a `Package`, and its `FileName/@val` equals the name |
| Xml.SearchPackagesAppend | src/tstodlc/tools/index.py:26-32 | the search keeps document order: it distributes over concatenation of the children |
| Xml.SearchPackagesEmpty | src/tstodlc/tools/index.py:26-32 | nothing is found iff no child matches |
| Xml.ExactMatchOnly | src/tstodlc/tools/index.py:30-31 | matching is on the exact string: "dlc/buildings-r1.zip" does not find "dlc/buildings-r2.zip" |
| Xml.Unmatched | src/tstodlc/tools/index.py:269-270 | after removing the matches, none is left and nothing grew |
| Xml.UnmatchedExactly | src/tstodlc/tools/index.py:269-270 | an element remains iff it was a child and does not match |
| Xml.UnmatchedAppend | src/tstodlc/tools/index.py:269-270 | removal keeps order: it distributes over concatenation |
| Xml.UnmatchedNoMatch | src/tstodlc/tools/index.py:269-270 | without matches nothing is removed |
| Xml.SearchUnmatched | src/tstodlc/tools/index.py:269-270 | removing the packages of one file name leaves the search for every other name unchanged |
| Xml.LoadedRoot | src/tstodlc/tools/index.py:46-63 | a loaded tree is kept when its root has the expected tag, otherwise an empty root with that tag is used |
| Xml.Locate | src/tstodlc/tools/index.py:205-212 | `root if branch == root.tag else find(branch)`: the located element has the branch's tag; None iff neither applies |
| Xml.IndexTree.constructor | src/tstodlc/tools/index.py:202-203 | the tree holds the loaded root |
| Xml.IndexTree.Set | src/tstodlc/tools/pack.py:269 | `root.set(key, v)` replaces that attribute alone |
| Xml.IndexTree.AppendChild | src/tstodlc/tools/pack.py:275 | `ET.SubElement(root, tag)` appends an empty child and changes nothing else |
| Xml.IndexTree.StoreBranch | src/tstodlc/tools/index.py:270-271 | the branch's children are replaced in place; the rest of the tree is kept |
| Paths.LastDashR | src/tstodlc/tools/pack.py:293 | where `rsplit("-r", maxsplit=1)` splits: the last "-r", with none after it; None iff there is no "-r" |
| Paths.StripRevision | src/tstodlc/tools/pack.py:293-299 | the result, when it differs from the stem, is the stem's head before a final "-r" followed by digits only |
| Paths.StripRevisionChanges | src/tstodlc/tools/pack.py:293-299 | the stem changes iff it ends in `-r<digits>` |
| Paths.StripAppendedRevision | src/tstodlc/tools/pack.py:293-299 | `s + "-r" + d`, d a non-empty digit string, maps to s |
| Paths.StripRevisionExamples | src/tstodlc/tools/pack.py:293-299 | only the last "-r" is examined: "a-r1-r2" gives "a-r1"; "buildings" and "menu-rx" stay as they are |
| Paths.LocalSubdirectoryOfZip | src/tstodlc/tools/pack.py:288-299 | for a stored name `<target>/<x>.zip` the clean-up looks up the subdirectory `StripRevision(x)` |
| Paths.NewFileNameLeadsBack | src/tstodlc/tools/pack.py:376-390 | for a subdirectory name without colons, the clean-up reads the name `<target>/<sub>-r<epoch>.zip` back as sub; it reads the name `<target>/<sub>.zip` built under `--norevision` as `StripRevision(sub)`, which differs from sub when sub ends in `-r<digits>` |
| Paths.FreshStoredStem | src/tstodlc/tools/pack.py:376-390 | for a subdirectory name without colons, the stem of a freshly built name, colons read as separators, is `<sub>-r<epoch>` with revisions and sub without |
| Paths.ColonSplitsSubdirectory | src/tstodlc/tools/pack.py:288-299 | a revisioned name built for the subdirectory `<head>:<tail>` is looked up under tail alone, for every head, tail without separators and epoch |
| Paths.FreshRawStem | src/tstodlc/tools/pack.py:376-390 | the stem of a freshly built name, colons left as they are, is `<sub>-r<epoch>` with revisions and sub without, whatever colons sub holds |
| Paths.ZipStem | src/tstodlc/tools/pack.py:288-292 | the stem of `<target>/<x>.zip`, colons read as separators, is x |
| Catalog.LengthPrefixed | src/tstodlc/tools/pack.py:31-38 | `write_str_to_file` writes `len(s) + 2` bytes |
| Catalog.LengthPrefixedRoundTrip | src/tstodlc/tools/pack.py:31-38 | the byte `len(s)+1`, then s, then 00 decodes back to s and the bytes after it |
| Catalog.ExtWritable | src/tstodlc/tools/pack.py:470 | the extension of a writable name is writable |
| Catalog.EntrySkipCountsRest | src/tstodlc/tools/pack.py:463-488 | the skip field `2*len(name) + len(ext) + 14` equals the number of bytes of the record that follow it |
| Catalog.RecordsLength | src/tstodlc/tools/pack.py:463-488 | each record is at most 777 bytes long |
| Catalog.LongestIndex | src/tstodlc/tools/pack.py:428-430 | `sorted(names, key=len, reverse=True)[0]`: a longest name, and no name before it is as long |
| Catalog.HintIsFirstLongest | src/tstodlc/tools/pack.py:428-436 | the header hint is the skip of the first longest name in input order |
| Catalog.HintIsNotMaximumSkip | src/tstodlc/tools/pack.py:428-436 | the hint is not always the largest skip: for "abc.d", "a.png" it is 25 while a record's skip is 27 |
| Catalog.HintFits | src/tstodlc/tools/pack.py:436 | the hint of writable names fits the 2-byte field |
| Catalog.TotalSize | src/tstodlc/tools/pack.py:491 | the patched size fits 4 bytes |
| Catalog.CatalogSignatureAndSize | src/tstodlc/tools/pack.py:421-493 | the blob starts `42 47 72 6D 03 02`, and the next 4 bytes, big-endian, equal the final length including the trailing CRC |
| Catalog.CatalogTrailingCrc | src/tstodlc/tools/pack.py:495-498 | the last 4 bytes are the big-endian CRC-32 of everything before them, taken after the size was patched |
| Catalog.CatalogEntryCount | src/tstodlc/tools/pack.py:461 | the 2-byte count field holds the number of entries |
| CatalogDecoder.DecodeEntryRoundTrip | src/tstodlc/tools/pack.py:463-488 | a record decodes to its skip, name, extension, name, size and priority, and the bytes after it |
| CatalogDecoder.DecodeEntriesRoundTrip | src/tstodlc/tools/pack.py:463-488 | the records of all entries decode back to the entries, in order, all with the common priority |
| CatalogDecoder.DecodeHeaderRoundTrip | src/tstodlc/tools/pack.py:427-461 | the header after the size field decodes back to hint, archive path, archive name, archive CRC and entries |
| CatalogDecoder.DecodeTailRoundTrip | src/tstodlc/tools/pack.py:427-488 | everything after the size field decodes back to `<dir>/1`, "1", the archive CRC and the entries |
| CatalogDecoder.DecodeFrame | src/tstodlc/tools/pack.py:490-498 | a blob with a correct size field and a correct trailing CRC is accepted and its body decoded |
| CatalogDecoder.DecodeCatalogRoundTrip | src/tstodlc/tools/pack.py:419-498 | the whole blob decodes back to what it was built from |
| ByteFiles.Overwrite | src/tstodlc/tools/pack.py:492-493 | writing at a position: the bytes before it are kept, the written bytes follow, and the file's tail past them is kept |
| ByteFiles.OverwriteAtEnd | src/tstodlc/tools/pack.py:498 | writing at the end appends |
| ByteFiles.OverwriteField | src/tstodlc/tools/pack.py:492-493 | writing over a field of the same width replaces that field alone |
| ByteFiles.ByteFile.Create | src/tstodlc/tools/pack.py:419 | `open(path, "wb")` starts empty at position 0 |
| ByteFiles.ByteFile.Open | src/tstodlc/tools/pack.py:496 | `open(path, "rb+")` holds the contents, at position 0 |
| ByteFiles.ByteFile.Write | src/tstodlc/tools/pack.py:493 | `f.write(bs)` overwrites at the position and moves it past bs |
| ByteFiles.ByteFile.Append | src/tstodlc/tools/pack.py:498 | a write at the end appends |
| ByteFiles.ByteFile.Tell | src/tstodlc/tools/pack.py:491 | `f.tell()` is the position |
| ByteFiles.ByteFile.Seek | src/tstodlc/tools/pack.py:492 | `f.seek(p)` moves the position and keeps the contents |
| ByteFiles.ByteFile.ReadAll | src/tstodlc/tools/pack.py:497 | `f.read()` returns the rest of the file and moves to its end |
| CatalogWriter.ToBytes | src/tstodlc/tools/pack.py:466 | `to_bytes(length=k)` succeeds iff `0 <= n < 256^k`, giving k big-endian bytes that read back as n; otherwise OverflowError |
| CatalogWriter.BigEndianOne | src/tstodlc/tools/pack.py:34 | `to_bytes()` with the default length writes one byte |
| CatalogWriter.WriteStr | src/tstodlc/tools/pack.py:31-38 | succeeds iff the string fits the 1-byte prefix, and then appends exactly its length-prefixed form; on OverflowError the file is unchanged |
| CatalogWriter.WriteHeader | src/tstodlc/tools/pack.py:419-461 | writes signature, zero size, hint, 00, `<dir>/1`, `00 01 00 08`, "1", 01, archive CRC and count; fails with OverflowError iff a field does not fit |
| CatalogWriter.WriteEntryFields | src/tstodlc/tools/pack.py:464-473 | appends skip, name, ext, name and size; fails with OverflowError iff the name or size does not fit |
| CatalogWriter.ResolvedPriority | src/tstodlc/tools/pack.py:479-483 | a given priority wins; otherwise the root's `priority` attribute, 1 when absent |
| CatalogWriter.EntryCheck | src/tstodlc/tools/pack.py:464-484 | an entry is written iff its fields fit and the priority parses and fits 2 bytes, and then with that priority; ValueError iff the fields fit and the priority does not parse; otherwise OverflowError |
| CatalogWriter.PriorityPersisted | src/tstodlc/tools/pack.py:479-485 | once the priority is stored on the root it resolves to the same value, with or without a priority argument |
| CatalogWriter.EntriesCheck | src/tstodlc/tools/pack.py:463-488 | all entries are written iff they all fit and the resolved priority fits 2 bytes, and then with that one common priority |
| CatalogWriter.CatalogCheck | src/tstodlc/tools/pack.py:405-488 | no files is the skip case and only it; success means every field fits and the common priority is the resolved one |
| CatalogWriter.CatalogCheckSucceeds | src/tstodlc/tools/pack.py:405-488 | the catalog is written with priority p iff the input is encodable with p and p is the resolved priority |
| CatalogWriter.SuccessStoresPriority | src/tstodlc/tools/pack.py:485 | after a successful catalog the root's `priority` attribute is `str(p)` and nothing else changed |
| CatalogWriter.DefaultPriorityIsOne | src/tstodlc/tools/pack.py:479-483 | with no argument and no stored attribute every entry gets priority 1 |
| CatalogWriter.ValueErrorOnlyFromStoredPriority | src/tstodlc/tools/pack.py:480 | a ValueError arises only from a stored, non-numeric `priority` attribute with no argument given |
| CatalogWriter.WriteEntry | src/tstodlc/tools/pack.py:463-488 | one record: the priority is resolved from the root, the record appended and the attribute set, or the error reported |
| CatalogWriter.WriteEntries | src/tstodlc/tools/pack.py:463-488 | the loop appends the records of all entries with the common priority; the root's `priority` is set by the first entry |
| CatalogWriter.FinishCatalog | src/tstodlc/tools/pack.py:490-498 | patching the size at offset 6, reopening and appending the CRC yields exactly the catalog blob, and the CRC reported at lines 532-533 is that of the finished blob |
| CatalogWriter.WriteCatalog | src/tstodlc/tools/pack.py:405-498 | the whole "0" file: the blob and its CRC on success, the first error otherwise, and the root's attributes as the run leaves them |
| PackRules.RevisionValue | src/tstodlc/tools/pack.py:265 | the stored mode value parses as 0 without revisions and 1 with |
| PackRules.RevisionStatus | src/tstodlc/tools/pack.py:262-268 | a status exactly when the stored or default value parses |
| PackRules.RevisionStatusDefault | src/tstodlc/tools/pack.py:262-268 | without a stored `revision` attribute the status is the current mode |
| PackRules.RevisionStatusOfNumber | src/tstodlc/tools/pack.py:262-268 | a stored number means "revisions on" iff it is not zero |
| PackRules.ApplyRevisionMode | src/tstodlc/tools/pack.py:262-269 | reads the status, then stores the current mode; on ValueError the root is unchanged |
| PackRules.StoredModeReadsBack | src/tstodlc/tools/pack.py:262-269 | a stored mode reads back as itself in the next run |
| PackRules.ShouldSkip | src/tstodlc/tools/pack.py:334-341 | the skip predicate: no forced install, zipping on, stored revision status equal to the current mode, archive present, no priority given, subdirectory older than the archive; a skip always reuses an existing archive newer than its subdirectory |
| PackRules.ModeSwitchRebuilds | src/tstodlc/tools/pack.py:333-341 | a run in the other revision mode than the stored one always rebuilds |
| PackRules.SkipWithoutStoredRevision | src/tstodlc/tools/pack.py:262-341 | without a stored revision attribute the status condition holds and the decision rests on the other five |
| PackRules.OpenBranch | src/tstodlc/tools/pack.py:272-276 | a sub-branch is found, or appended empty when asked for; it is listed iff it is there afterwards |
| PackRules.PrepareBranches | src/tstodlc/tools/pack.py:271-283 | sets up both sub-branches, lists the root and the sub-branches present, and forces an install for a new index or a created sub-branch |
| PackRules.WithBranchShape | src/tstodlc/tools/pack.py:272-283 | existing children keep their place; the sub-branch exists afterwards iff it existed or was asked for |
| PackRules.PlannedChildrenKeep | src/tstodlc/tools/pack.py:271-283 | setting up both sub-branches keeps every existing child in place |
| PackRules.PlannedBranchesShape | src/tstodlc/tools/pack.py:259-283 | `root_list` is the root, then InitialPackages iff present, then TutorialPackages iff present, each a child of the root |
| PackageEntry.PackageAttributes | src/tstodlc/tools/index.py:92-137 | platform, minVersion, tier: argument, else existing, else "all", "4.69.0", "all"; unzip, xml, type, ignore: existing, else "false", "", "", "false"; every other attribute kept |
| PackageEntry.UpdatedAttribFixed | src/tstodlc/tools/index.py:93-137 | attributes that already hold their values are left as they are |
| PackageEntry.UpdatedAttribIdempotent | src/tstodlc/tools/index.py:93-137 | updating the attributes twice is updating them once |
| PackageEntry.SetOrAppendAttr | src/tstodlc/tools/index.py:160-165 | one key: the first child with that tag gets the value, or a new child is appended; other tags read as before |
| PackageEntry.ApplyAllAttr | src/tstodlc/tools/index.py:160-165 | after the loop every sub-element key reads its own value |
| PackageEntry.ApplyAllKeeps | src/tstodlc/tools/index.py:160-165 | the loop keeps every existing child in place with its tag and children, and leaves untouched tags as they were |
| PackageEntry.ApplyAllAppends | src/tstodlc/tools/index.py:160-165 | the loop appends exactly the missing sub-elements, in key order |
| PackageEntry.MissingFromEmpty | src/tstodlc/tools/index.py:160-165 | into an element without children, every key is appended in order |
| PackageEntry.ApplyAllStable | src/tstodlc/tools/index.py:160-165 | a loop whose keys already hold their values changes nothing |
| PackageEntry.SubElementKeysDistinct | src/tstodlc/tools/index.py:139-158 | the sub-element keys are the eight keys of the literal, in order, and distinct |
| PackageEntry.UpdatedPackageSubElements | src/tstodlc/tools/index.py:139-165 | FileSize, UncompressedFileSize, IndexFileCRC and FileName come from the arguments; LocalDir, IndexFileSig and Version are kept, else defaulted; Language is the argument, else kept, else "all" |
| PackageEntry.UpdatedPackageShape | src/tstodlc/tools/index.py:139-165 | existing children keep their place, other tags are untouched, and the missing ones are appended in key order |
| PackageEntry.FreshPackageAttributes | src/tstodlc/tools/index.py:86-137 | a new package gets exactly the seven attributes with their defaults or arguments |
| PackageEntry.FreshPackageChildren | src/tstodlc/tools/index.py:86-165 | a new package gets exactly the eight sub-elements, in key order |
| PackageEntry.UpdatedPackageMatches | src/tstodlc/tools/index.py:152 | an updated package is found under its file name |
| PackageEntry.UpdatedPackageIdempotent | src/tstodlc/tools/index.py:91-165 | updating a package twice with the same arguments is updating it once |
| PackageEntry.UpdatePackage | src/tstodlc/tools/index.py:91-165 | the `pkg.set` calls and the sub-element loop compute the updated package |
| PackageEntry.MapMatched | src/tstodlc/tools/index.py:91 | updating the matches keeps the number of children |
| PackageEntry.UpdateMatched | src/tstodlc/tools/index.py:91-165 | the loop updates every matched package in place and no other child |
| PackageEntry.UpdateEntryInBranch | src/tstodlc/tools/index.py:82-165 | `UpdatePackageEntry` on a branch's children |
| PackageEntry.UpdateEntryInserts | src/tstodlc/tools/index.py:83-88 | with no match, exactly one package is inserted at index 0, the others follow in order, and it is the only match |
| PackageEntry.UpdateEntryLeavesOthers | src/tstodlc/tools/index.py:83-165 | a child that does not match is unchanged, shifted by one iff a package was inserted |
| PackageEntry.UpdateEntryMatches | src/tstodlc/tools/index.py:83-165 | afterwards the file name is found and every match is fully updated |
| PackageEntry.UpdateEntryIdempotent | src/tstodlc/tools/index.py:83-165 | a second identical call leaves the children unchanged |
| ServerIndex.ServerKey | src/tstodlc/tools/index.py:232-236 | the server is searched for the local file name, or "NOT DEFINED!" without one |
| ServerIndex.MergePackage | src/tstodlc/tools/index.py:229-271 | removing the matches one by one and inserting at 0, or calling `UpdatePackageEntry`, computes one merge step |
| ServerIndex.MergeOneListsOnce | src/tstodlc/tools/index.py:229-271 | afterwards exactly one package, at index 0, carries the file name, the local one when there were matches, and the others keep their order |
| ServerIndex.MergeOneInsertsDefaults | src/tstodlc/tools/index.py:238-267 | with no server match the new package takes platform, minVersion, tier, sizes, CRC and file name from the local one, and defaults for everything else |
| ServerIndex.MergeOneStableOnMatch | src/tstodlc/tools/index.py:229-271 | when the server already lists the local package's file name, a second identical pass leaves the branch as the first left it |
| ServerIndex.MergeTwiceReplacesEntered | src/tstodlc/tools/index.py:229-271 | when the server lacked the file name, the second pass replaces the entered package with the local element: the branch becomes the local package followed by the old children |
| ServerIndex.MergeTwiceDiffers | src/tstodlc/tools/index.py:229-271 | two identical passes can differ: a local package without attributes is entered with defaulted attributes, then replaced by itself |
| ServerIndex.MergeThirdPassIsSecond | src/tstodlc/tools/index.py:229-271 | for a package named by its own file name, a third pass leaves the branch as the second left it |
| ServerIndex.MergeOneKeepsOthers | src/tstodlc/tools/index.py:229-271 | packages of other file names are found as before |
| ServerIndex.MergeAllKeepsKey | src/tstodlc/tools/index.py:229-271 | a file name no local package carries is found as before |
| ServerIndex.MergeAllListsOnce | src/tstodlc/tools/index.py:229-271 | after the branch is merged each propagated file name is listed once |
| ServerIndex.MergeBranch | src/tstodlc/tools/index.py:229-271 | the loop over the local packages merges them in order |
| ServerIndex.SelectedExactly | src/tstodlc/tools/index.py:215-226 | a local package is propagated iff its `Path(FileName.split(":",1)[-1]).stem` is among the directory names |
| ServerIndex.SelectedNeedsBareNames | src/tstodlc/tools/index.py:215-226 | a stem holds no separator, so directory names given as paths select nothing |
| ServerIndex.RevisionedStemIsNotSub | src/tstodlc/tools/index.py:215-226 | a package built with revisions has the stem `<sub>-r<epoch>`, never the bare subdirectory name |
| ServerIndex.MergeBranchesNone | src/tstodlc/tools/index.py:204-213 | when no branch is in both trees the server tree is unchanged: missing branches are skipped |
| ServerIndex.UpdateServerIndex | src/tstodlc/tools/index.py:197-280 | (False, None) and no change without both indexes; otherwise the branches are merged in order and (True, name) returned |
| Prune.Survivors | src/tstodlc/tools/index.py:296-309 | no survivor is stale, and nothing is added |
| Prune.SurvivorsExactly | src/tstodlc/tools/index.py:296-309 | an element survives iff it was a child and is not stale: no file name, or its file is present |
| Prune.SurvivorsAppend | src/tstodlc/tools/index.py:296-309 | removal keeps document order: it distributes over concatenation |
| Prune.SurvivorsUnchanged | src/tstodlc/tools/index.py:296-309 | nothing is removed iff no child is stale |
| Prune.SurvivorsIdempotent | src/tstodlc/tools/index.py:296-309 | within one branch, a second clean-up with the same files removes nothing |
| Prune.RemoveDeadInBranch | src/tstodlc/tools/index.py:296-309 | the loop leaves exactly the survivors, and `removed` is true iff a stale package was there |
| Prune.PruneNothingDead | src/tstodlc/tools/index.py:288-309 | with no stale package anywhere the tree is unchanged |
| Prune.RemoveDeadPackages | src/tstodlc/tools/index.py:283-311 | without a server index nothing happens; otherwise each listed branch keeps its survivors, and `removed` is true iff something went |
| Prune.NoDeadFromClean | src/tstodlc/tools/index.py:288-309 | when every listed branch holds no stale package, the clean-up finds nothing to remove |
| Prune.PruneKeepsClean | src/tstodlc/tools/index.py:288-309 | a branch cleaned on the way stays clean while the later branches are cleaned, as long as no listed branch is named `Package` |
| Prune.PruneIdempotent | src/tstodlc/tools/index.py:283-311 | a second `RemoveDeadPackages` over the same branches and files finds nothing stale, so it reports `removed == false` and leaves the tree as the first run left it |
| Prune.RemoveGoneInBranch | src/tstodlc/tools/pack.py:287-302 | the local loop stops iff a package has no file name; otherwise exactly the packages of live subdirectories survive |
| Prune.RemoveGonePackages | src/tstodlc/tools/pack.py:286-302 | the local clean-up over `root_list` stops iff it meets a package without a file name; otherwise every branch keeps its live packages |
| Prune.FreshPackageSurvival | src/tstodlc/tools/pack.py:288-299 | a package just built for a live subdirectory whose name holds no colon is removed by the next local clean-up iff it was built under `--norevision`, the subdirectory's name ends in `-r<digits>`, and the head is neither `""`, `.` nor `..` (the source directory or its parent) nor itself a live subdirectory |
| Prune.SelfOrParentHeadKept | src/tstodlc/tools/pack.py:293-301 | under `--norevision` a subdirectory `-r<d>`, `.-r<d>` or `..-r<d>` leaves the head `""`, `.` or `..`; `Path(directory, head)` is then the source directory or its parent, which exist and are not empty, so the entry is kept under both rules whatever subdirectories are live |
| Prune.EmptyHeadKept | src/tstodlc/tools/pack.py:293-300 | under `--norevision` the subdirectory `-r5` is stored as `dlc/-r5.zip`; its head is empty, so the clean-up looks at the source directory itself, which exists, and keeps the entry even when no subdirectory is live |
| Prune.NoRevisionStampPurged | src/tstodlc/tools/pack.py:288-299 | under `--norevision` the package built for the live subdirectory `a-r1`, stored as `dlc/a-r1.zip`, is removed by the next clean-up |
| Prune.FreshPackageSurvivesOrphaned | src/tstodlc/tools/pack.py:288-299 | with the corrected rule, every package just built for a live subdirectory survives, in both modes and whatever colons the subdirectory's name holds |
| Prune.ColonSubdirectoryPurged | src/tstodlc/tools/pack.py:288-299 | the package built with revisions for the live subdirectory `a:b`, stored as `dlc/a:b-r5.zip`, is looked up as `b` and removed; the corrected rule keeps it |
| Prune.OrphanedOnlyIfGone | src/tstodlc/tools/pack.py:288-299 | the corrected rule removes only packages that the rule as written also removes |

## Left out

- File-system and archive effects are inputs or are left out:
  `glob`, `stat`, `exists`, `iterdir`, `mkdir`, `os.remove`, temporary
  directories, `shutil.copy`, zip creation and extraction, and the nozip
  copy. The catalog takes its entries, sizes and archive CRC as
  parameters. The list `glob("**/*")` builds (pack.py:402) also holds
  directories; entries are taken as given.
- XML parsing and serialisation, `ET.indent`, and the loaders and writers
  `GetXmlFromFile`, `GetServerIndexTree` and `WriteServerTree` are I/O. A
  loaded tree is a `Node` parameter; `Xml.LoadedRoot` states the
  wrong-root-tag rule.
- Attribute order, element text and tails are not modelled. Element
  identity is not modelled either: `remove` acts on the element found at a
  position, and an element inserted into the server tree is a copy of the
  local one, not shared.
- Console output: `colorprint`, `report_progress`, `progress_str` and the
  messages.
- The clock and argument parsing: the epoch and the options are parameters.
- Names must be ASCII. `write_str_to_file` counts characters but writes
  UTF-8 bytes (pack.py:33-37).
- Text.ParseInt: accepts ASCII digits with an optional sign. Python's `int`
  also accepts surrounding whitespace, underscores and non-ASCII digits.
  Likewise `isdigit` is modelled on ASCII digits only.
- pack.py:358-371 and 537-550 call `UpdatePackageEntry` with 12 arguments,
  but index.py:71-81 declares 9. The model follows index.py's 9-parameter
  function, and the calls from `main` into the local index are not
  modelled.
- pack.py:584-588 passes `Path` objects of the form `<directory>/<sub>` as
  `directories_names`, while index.py:218-225 tests a `str` stem for
  membership. A `Path` never equals a `str`, so `UpdateServerIndex`, as
  `main` calls it, propagates no package at all. Bare names would not help
  either: `ServerIndex.RevisionedStemIsNotSub` shows that the stem of a
  revisioned package is `<sub>-r<epoch>`, not sub.
  `ServerIndex.UpdateServerIndex` takes the names as a set of strings, and
  `ServerIndex.SelectedNeedsBareNames` shows that names with a separator
  select nothing. The model does not decide which names were intended.
- The glob pattern `name..zip` (pack.py:314) and the choice of `subpath`
  are file-system lookups. They are not part of this model.
- Prune.RemoveGonePackages: receives the set of live subdirectories (those
  that exist and are not empty) as a parameter. The heads `""`, `.` and
  `..`, which resolve to the source directory and its parent, are kept by
  the rule itself. `iterdir` on a plain file
  raises `NotADirectoryError` in the source; that case is not modelled.
- Prune.RemoveGonePackages: when it returns false, the contract does not
  describe the tree. The run ends there, with earlier branches already
  pruned.
- Prune.RemoveDeadPackages: file existence is a given set of paths relative
  to the DLC root. An absolute `FileName` value, which `Path(dlc_root, ...)`
  would not join under the root, is not distinguished.
- Paths.NewFileNameLeadsBack: states the zipped name only. With nozip no
  archive is made and the index is not written (pack.py:572).
- Prune.FreshPackageSurvival: states the zipped name only, for the same
  reason.
- Paths.NewFileNameLeadsBack: requires a subdirectory name without colons.
  The clean-up reads a colon as a separator, so a name with one is looked
  up under its last colon-separated part; `Prune.ColonSubdirectoryPurged`
  shows the case.
- Paths.FreshStoredStem: requires a subdirectory name without colons, for
  the same reason; `Paths.FreshRawStem` covers every name.
- Prune.FreshPackageSurvival: requires a subdirectory name without colons;
  with a colon the package can be removed in either mode, as
  `Prune.ColonSubdirectoryPurged` shows.
- PackRules.ShouldSkip: its contract states only that a skip needs an
  existing archive newer than its subdirectory. The other four conditions
  are its definition; `PackRules.ModeSwitchRebuilds` and
  `PackRules.SkipWithoutStoredRevision` state their effect.
- Prune.RemoveGonePackages: the source clean-up uses the rule `Gone`. The
  corrected rule `Orphaned` is a parameter value the model offers, not a
  change to the method.
- The CRC-32 is the bitwise zlib definition (RFC 1952 section 8). No
  property depends on its values.

## Findings

| source | as written | input that shows it | evidently intended | confidence | as-written member | corrected member |
|---|---|---|---|---|---|---|
| src/tstodlc/tools/pack.py:288-299 | the local clean-up always splits `-r<digits>` off the stored stem, also for names built under `--norevision`, which carry no revision | under `--norevision`, the live subdirectory `a-r1` is stored as `dlc/a-r1.zip`; the next clean-up looks for the subdirectory `a` and removes the entry | an entry whose stem, or whose stem without its revision, names a live subdirectory is kept | medium, not executed | Prune.NoRevisionStampPurged | Prune.FreshPackageSurvivesOrphaned |
| src/tstodlc/tools/pack.py:288-292 | the local clean-up reads every colon in a stored name as a path separator, also a colon that is part of a subdirectory's name | the live subdirectory `a:b` is stored as `dlc/a:b-r5.zip`; the next clean-up looks for the subdirectory `b` and removes the entry | an entry built for a live subdirectory is kept whatever characters its name holds | low, not executed | Prune.ColonSubdirectoryPurged | Prune.FreshPackageSurvivesOrphaned |
