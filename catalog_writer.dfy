/** The statements of pack.py that write the "0" catalog file, field by
    field, into a byte file: the signature, a reserved size field, the header,
    one record per file with the priority taken from the argument or from the
    index root, the size field patched in, and the CRC-32 of everything
    before it appended. Python's OverflowError and ValueError stop the run;
    they are the failures here. */
module CatalogWriter {
  import opened Wrappers
  import opened Bytes
  import opened Text
  import opened Xml
  import opened Catalog
  import opened ByteFiles
  import Paths

  /** Why no catalog is written: a directory without files (pack.py skips
      it), an `int` that fails, or a `to_bytes` that does not fit. */
  datatype CatalogError = NoFiles | ValueError | OverflowError

  /** `n.to_bytes(length=k)`, which raises OverflowError for a negative n or
      one that needs more than k bytes. */
  function ToBytes(n: int, k: nat): (r: Result<seq<byte>, CatalogError>)
    ensures r.Success? <==> 0 <= n < Pow256(k)
    ensures r.Success? ==> |r.value| == k && FromBigEndian(r.value) == n && r.value == BigEndian(n, k)
    ensures r.Failure? ==> r.error == OverflowError
  {
    if 0 <= n < Pow256(k) then
      BigEndianRoundTrip(n, k);
      Success(BigEndian(n, k))
    else Failure(OverflowError)
  }

  lemma BigEndianOne(n: nat)
    requires n < 256
    ensures Pow256(1) == 256 && BigEndian(n, 1) == [n]
  {
    Pow256Values();
  }

  /** write_str_to_file on a file positioned at its end. The prefix byte is
      written first, so a string too long for it leaves the file as it was. */
  method WriteStr(f: ByteFile, s: string) returns (r: Result<(), CatalogError>)
    requires IsAscii(s) && f.pos == |f.data|
    modifies f
    ensures r.Success? <==> Writable(s)
    ensures r.Failure? ==> r.error == OverflowError && f.data == old(f.data)
    ensures r.Success? ==> f.data == old(f.data) + LengthPrefixed(s)
    ensures f.pos == |f.data|
  {
    Pow256Values();
    var skip := ToBytes(|s| + 1, 1);
    if skip.Failure? {
      return Failure(skip.error);
    }
    BigEndianOne(|s| + 1);
    ghost var d0 := f.data;
    f.Append(skip.value);
    f.Append(AsciiBytes(s));
    AppendAssoc(d0, skip.value, AsciiBytes(s));
    f.Append([0]);
    AppendAssoc(d0, skip.value + AsciiBytes(s), [0]);
    r := Success(());
  }

  /** The header up to the entry count, written after the signature and the
      four reserved bytes into a new file; it fails on the first field that
      does not fit. */
  method WriteHeader(f: ByteFile, es: seq<FileEntry>, archiveCrc: uint32, dir: string)
    returns (r: Result<(), CatalogError>)
    requires es != [] && IsAscii(dir) && f.data == [] && f.pos == 0
    modifies f
    ensures r.Success? <==> HeaderFits(es, dir)
    ensures r.Failure? ==> r.error == OverflowError
    ensures r.Success? ==> f.data == Signature + [0, 0, 0, 0] + TailHead(es, archiveCrc, dir)
    ensures f.pos == |f.data|
  {
    Pow256Values();
    f.Append(Signature);
    f.Append([0, 0, 0, 0]);
    ghost var pre := f.data;
    assert pre == Signature + [0, 0, 0, 0];
    var longest := ToBytes(Hint(es), 2);
    if longest.Failure? {
      return Failure(longest.error);
    }
    f.Append(longest.value);
    ghost var acc := longest.value;
    f.Append([0]);
    AppendAssoc(pre, acc, [0]);
    acc := acc + [0];
    assert IsAscii(dir + "/1");
    var path := WriteStr(f, dir + "/1");
    if path.Failure? {
      return Failure(path.error);
    }
    AppendAssoc(pre, acc, LengthPrefixed(dir + "/1"));
    acc := acc + LengthPrefixed(dir + "/1");
    f.Append([0, 1, 0, 8]);
    AppendAssoc(pre, acc, [0, 1, 0, 8]);
    acc := acc + [0, 1, 0, 8];
    var one := WriteStr(f, "1");
    assert one.Success?;
    AppendAssoc(pre, acc, LengthPrefixed("1"));
    acc := acc + LengthPrefixed("1");
    f.Append([1]);
    AppendAssoc(pre, acc, [1]);
    acc := acc + [1];
    f.Append(BigEndian(archiveCrc, 4));
    AppendAssoc(pre, acc, BigEndian(archiveCrc, 4));
    acc := acc + BigEndian(archiveCrc, 4);
    var count := ToBytes(|es|, 2);
    if count.Failure? {
      return Failure(count.error);
    }
    f.Append(count.value);
    AppendAssoc(pre, acc, count.value);
    acc := acc + count.value;
    assert acc == TailHead(es, archiveCrc, dir);
    r := Success(());
  }

  /** The fields of a record before its priority. */
  function EntryFields(e: FileEntry): seq<byte>
    requires EntryFits(e)
  {
    ExtWritable(e.name);
    Pow256Values();
    BigEndian(Skip(e.name), 2) + LengthPrefixed(e.name) + LengthPrefixed(Paths.Ext(e.name))
      + LengthPrefixed(e.name) + BigEndian(e.size, 4)
  }

  lemma EntryRecordFields(e: FileEntry, priority: nat)
    requires EntryFits(e) && priority < 0x1_0000
    ensures Pow256(2) == 0x1_0000
    ensures EntryRecord(e, priority) == EntryFields(e) + BigEndian(priority, 2) + [0, 0]
  {
    Pow256Values();
  }

  /** Skip, name, extension, name and size of one file; the first field that
      does not fit stops it. */
  method WriteEntryFields(f: ByteFile, e: FileEntry) returns (r: Result<(), CatalogError>)
    requires IsAscii(e.name) && f.pos == |f.data|
    modifies f
    ensures r.Success? <==> EntryFits(e)
    ensures r.Failure? ==> r.error == OverflowError
    ensures r.Success? ==> f.data == old(f.data) + EntryFields(e)
    ensures f.pos == |f.data|
  {
    Pow256Values();
    ghost var pre := f.data;
    var skip := ToBytes(Skip(e.name), 2);
    if skip.Failure? {
      return Failure(skip.error);
    }
    f.Append(skip.value);
    ghost var acc := skip.value;
    var name := WriteStr(f, e.name);
    if name.Failure? {
      return Failure(name.error);
    }
    AppendAssoc(pre, acc, LengthPrefixed(e.name));
    acc := acc + LengthPrefixed(e.name);
    ExtWritable(e.name);
    var ext := WriteStr(f, Paths.Ext(e.name));
    assert ext.Success?;
    AppendAssoc(pre, acc, LengthPrefixed(Paths.Ext(e.name)));
    acc := acc + LengthPrefixed(Paths.Ext(e.name));
    var internal := WriteStr(f, e.name);
    assert internal.Success?;
    AppendAssoc(pre, acc, LengthPrefixed(e.name));
    acc := acc + LengthPrefixed(e.name);
    var size := ToBytes(e.size, 4);
    if size.Failure? {
      return Failure(size.error);
    }
    f.Append(size.value);
    AppendAssoc(pre, acc, size.value);
    acc := acc + size.value;
    assert acc == EntryFields(e);
    r := Success(());
  }

  /** The priority a record gets: the argument when given, else the root's
      `priority` attribute, "1" when absent, read by `int`. */
  function ResolvedPriority(priorityArg: Option<int>, attrib: map<string, string>): (r: Option<int>)
    ensures priorityArg.Some? ==> r == priorityArg
    ensures priorityArg.None? && "priority" !in attrib ==> r == Some(1)
  {
    if priorityArg.Some? then priorityArg
    else
      ParseNatToString(1);
      ParseInt(GetItem(attrib, "priority", "1"))
  }

  /** What happens at one record: its fields must fit, then `int` must
      succeed, then the priority must fit two bytes. */
  function EntryCheck(e: FileEntry, priorityArg: Option<int>, attrib: map<string, string>): (r: Result<nat, CatalogError>)
    ensures r.Success? ==> EntryFits(e) && r.value < 0x1_0000 && ResolvedPriority(priorityArg, attrib) == Some(r.value)
    ensures r.Failure? && EntryFits(e) && ResolvedPriority(priorityArg, attrib).Some? ==> r.error == OverflowError
    ensures EntryFits(e) && ResolvedPriority(priorityArg, attrib).Some? && 0 <= ResolvedPriority(priorityArg, attrib).value < 0x1_0000
            ==> r == Success(ResolvedPriority(priorityArg, attrib).value)
    ensures r == Failure(ValueError) <==> EntryFits(e) && ResolvedPriority(priorityArg, attrib).None?
  {
    if !EntryFits(e) then Failure(OverflowError)
    else match ResolvedPriority(priorityArg, attrib)
      case None => Failure(ValueError)
      case Some(p) => if 0 <= p < 0x1_0000 then Success(p) else Failure(OverflowError)
  }

  /** Once a priority is stored on the root, the next lookup without an
      argument reads the same value back. */
  lemma PriorityPersisted(priorityArg: Option<int>, attrib: map<string, string>, p: nat)
    requires ResolvedPriority(priorityArg, attrib) == Some(p)
    ensures ResolvedPriority(priorityArg, attrib["priority" := NatToString(p)]) == Some(p)
    ensures ResolvedPriority(None, attrib["priority" := NatToString(p)]) == Some(p)
  {
    ParseNatToString(p);
  }

  /** The outcome of the record loop: the first record decides the priority
      and every later record only has to fit. */
  function EntriesCheck(es: seq<FileEntry>, priorityArg: Option<int>, attrib: map<string, string>): (r: Result<nat, CatalogError>)
    requires es != []
    ensures r.Success? ==> AllFit(es) && r.value < 0x1_0000 && ResolvedPriority(priorityArg, attrib) == Some(r.value)
    ensures AllFit(es) && ResolvedPriority(priorityArg, attrib).Some? && 0 <= ResolvedPriority(priorityArg, attrib).value < 0x1_0000
            ==> r == Success(ResolvedPriority(priorityArg, attrib).value)
  {
    assert AllFit(es) ==> EntryFits(es[0]) && AllFit(es[1..]) by {
      assert forall i :: 0 <= i < |es[1..]| ==> es[1..][i] == es[i + 1];
    }
    match EntryCheck(es[0], priorityArg, attrib)
    case Failure(e) => Failure(e)
    case Success(p) =>
      if AllFit(es[1..]) then
        assert forall i :: 1 <= i < |es| ==> es[i] == es[1..][i - 1];
        Success(p)
      else Failure(OverflowError)
  }

  /** The outcome of the whole catalog, failures checked in the order pack.py
      meets them. */
  function CatalogCheck(es: seq<FileEntry>, dir: string, priorityArg: Option<int>, attrib: map<string, string>)
    : (r: Result<nat, CatalogError>)
    ensures r.Success? ==> Encodable(es, dir, r.value) && ResolvedPriority(priorityArg, attrib) == Some(r.value)
    ensures r == Failure(NoFiles) <==> es == []
  {
    if es == [] then Failure(NoFiles)
    else if !HeaderFits(es, dir) then Failure(OverflowError)
    else match EntriesCheck(es, priorityArg, attrib)
      case Failure(e) => assert e != NoFiles; Failure(e)
      case Success(p) => Success(p)
  }

  /** The root's attributes once the catalog is done or has failed: the
      priority is stored as soon as the first record is written in full, so
      a later record that does not fit leaves it stored. */
  function AttribAfter(es: seq<FileEntry>, dir: string, priorityArg: Option<int>, attrib: map<string, string>)
    : map<string, string>
  {
    if es != [] && HeaderFits(es, dir) && EntryCheck(es[0], priorityArg, attrib).Success? then
      attrib["priority" := NatToString(EntryCheck(es[0], priorityArg, attrib).value)]
    else attrib
  }

  /** The catalog is written exactly for the inputs that fit, with the
      priority the argument or the root gives. */
  lemma CatalogCheckSucceeds(es: seq<FileEntry>, dir: string, priorityArg: Option<int>, attrib: map<string, string>, p: nat)
    ensures CatalogCheck(es, dir, priorityArg, attrib) == Success(p)
        <==> Encodable(es, dir, p) && ResolvedPriority(priorityArg, attrib) == Some(p)
  {
    if Encodable(es, dir, p) && ResolvedPriority(priorityArg, attrib) == Some(p) {
      HintFits(es);
      assert EntryFits(es[0]);
      assert AllFit(es[1..]) by {
        assert forall i :: 0 <= i < |es[1..]| ==> es[1..][i] == es[i + 1];
      }
    }
  }

  /** A successful run leaves the priority it used on the root. */
  lemma SuccessStoresPriority(es: seq<FileEntry>, dir: string, priorityArg: Option<int>, attrib: map<string, string>)
    requires CatalogCheck(es, dir, priorityArg, attrib).Success?
    ensures AttribAfter(es, dir, priorityArg, attrib)
         == attrib["priority" := NatToString(CatalogCheck(es, dir, priorityArg, attrib).value)]
  {
  }

  /** Without an argument and without a stored priority, records get 1. */
  lemma DefaultPriorityIsOne(es: seq<FileEntry>, dir: string, attrib: map<string, string>)
    requires "priority" !in attrib && Encodable(es, dir, 1)
    ensures CatalogCheck(es, dir, None, attrib) == Success(1)
  {
    CatalogCheckSucceeds(es, dir, None, attrib, 1);
  }

  /** A failing `int` is reported only when the header and the first record's
      fields were written. */
  lemma ValueErrorOnlyFromStoredPriority(es: seq<FileEntry>, dir: string, priorityArg: Option<int>, attrib: map<string, string>)
    requires CatalogCheck(es, dir, priorityArg, attrib) == Failure(ValueError)
    ensures priorityArg.None? && "priority" in attrib && ParseInt(attrib["priority"]).None?
    ensures HeaderFits(es, dir) && EntryFits(es[0])
  {
    ParseNatToString(1);
  }

  lemma AllFitTail(es: seq<FileEntry>)
    requires es != [] && AllFit(es)
    ensures EntryFits(es[0]) && AllFit(es[1..])
  {
    assert forall i :: 0 <= i < |es[1..]| ==> es[1..][i] == es[i + 1];
  }

  lemma AllFitSnoc(es: seq<FileEntry>, e: FileEntry)
    requires AllFit(es) && EntryFits(e)
    ensures AllFit(es + [e])
  {
    assert forall i :: 0 <= i < |es| ==> (es + [e])[i] == es[i];
  }

  /** The records of one more file follow the records before it. */
  lemma {:induction false} RecordsSnoc(es: seq<FileEntry>, e: FileEntry, priority: nat)
    requires AllFit(es) && EntryFits(e) && AllFit(es + [e]) && priority < 0x1_0000
    ensures Records(es + [e], priority) == Records(es, priority) + EntryRecord(e, priority)
  {
    var xs := es + [e];
    if es == [] {
      assert xs[1..] == [];
      assert Records(xs, priority) == EntryRecord(e, priority) + Records([], priority);
    } else {
      var head, rest := EntryRecord(es[0], priority), es[1..];
      assert xs[0] == es[0];
      assert xs[1..] == rest + [e];
      AllFitTail(es);
      AllFitTail(xs);
      assert Records(xs, priority) == head + Records(rest + [e], priority);
      assert Records(es, priority) == head + Records(rest, priority);
      RecordsSnoc(rest, e, priority);
      AppendAssoc(head, Records(rest, priority), EntryRecord(e, priority));
    }
  }

  lemma SetTwice(m: map<string, string>, key: string, value: string)
    ensures m[key := value][key := value] == m[key := value]
  {
  }

  /** A record after the first sees the stored priority: it either fits and
      gets that priority, or it is the OverflowError of the whole loop. */
  lemma LaterEntry(es: seq<FileEntry>, k: nat, priorityArg: Option<int>, attrib0: map<string, string>, p: nat,
                   attrib: map<string, string>)
    requires 1 <= k < |es| && EntryCheck(es[0], priorityArg, attrib0) == Success(p)
    requires ResolvedPriority(priorityArg, attrib) == Some(p)
    ensures var r := EntryCheck(es[k], priorityArg, attrib);
      (r.Success? ==> r.value == p)
      && (r.Failure? ==> r.error == OverflowError && EntriesCheck(es, priorityArg, attrib0) == Failure(OverflowError))
  {
    if !EntryFits(es[k]) {
      assert !EntryFits(es[1..][k - 1]);
    }
  }

  /** The records of the first k + 1 files. */
  lemma RecordsStep(es: seq<FileEntry>, k: nat, priority: nat)
    requires k < |es| && AllFit(es[..k]) && EntryFits(es[k]) && priority < 0x1_0000
    ensures AllFit(es[..k + 1])
    ensures Records(es[..k + 1], priority) == Records(es[..k], priority) + EntryRecord(es[k], priority)
  {
    assert es[..k + 1] == es[..k] + [es[k]];
    AllFitSnoc(es[..k], es[k]);
    RecordsSnoc(es[..k], es[k], priority);
  }

  /** One record: its fields, then the priority, which is stored on the root
      once it is written, then two zero bytes. */
  method WriteEntry(f: ByteFile, root: IndexTree, e: FileEntry, priorityArg: Option<int>)
    returns (r: Result<nat, CatalogError>)
    requires IsAscii(e.name) && f.pos == |f.data|
    modifies f, root
    ensures r == EntryCheck(e, priorityArg, old(root.attrib))
    ensures root.attrib == if r.Success? then old(root.attrib)["priority" := NatToString(r.value)] else old(root.attrib)
    ensures root.tag == old(root.tag) && root.children == old(root.children)
    ensures r.Success? ==> f.data == old(f.data) + EntryRecord(e, r.value)
    ensures f.pos == |f.data|
  {
    Pow256Values();
    ghost var pre := f.data;
    var fields := WriteEntryFields(f, e);
    if fields.Failure? {
      return Failure(fields.error);
    }
    var priority: int;
    if priorityArg.Some? {
      priority := priorityArg.value;
    } else {
      var parsed := ParseInt(GetItem(root.attrib, "priority", "1"));
      if parsed.None? {
        return Failure(ValueError);
      }
      priority := parsed.value;
    }
    var bytes := ToBytes(priority, 2);
    if bytes.Failure? {
      return Failure(bytes.error);
    }
    f.Append(bytes.value);
    AppendAssoc(pre, EntryFields(e), bytes.value);
    root.Set("priority", NatToString(priority));
    f.Append([0, 0]);
    AppendAssoc(pre, EntryFields(e) + bytes.value, [0, 0]);
    EntryRecordFields(e, priority);
    r := Success(priority);
  }

  /** The record loop over all files, in order. */
  method WriteEntries(f: ByteFile, root: IndexTree, es: seq<FileEntry>, priorityArg: Option<int>)
    returns (r: Result<nat, CatalogError>)
    requires es != [] && (forall i :: 0 <= i < |es| ==> IsAscii(es[i].name)) && f.pos == |f.data|
    modifies f, root
    ensures r == EntriesCheck(es, priorityArg, old(root.attrib))
    ensures var first := EntryCheck(es[0], priorityArg, old(root.attrib));
      root.attrib == if first.Success? then old(root.attrib)["priority" := NatToString(first.value)] else old(root.attrib)
    ensures root.tag == old(root.tag) && root.children == old(root.children)
    ensures r.Success? ==> f.data == old(f.data) + Records(es, r.value)
    ensures f.pos == |f.data|
  {
    var first := WriteEntry(f, root, es[0], priorityArg);
    if first.Failure? {
      return Failure(first.error);
    }
    var priority := first.value;
    ghost var attrib0 := old(root.attrib);
    ghost var d0 := old(f.data);
    assert [es[0]] == es[..1];
    assert Records(es[..1], priority) == EntryRecord(es[0], priority) by {
      assert es[..1][1..] == [];
    }
    PriorityPersisted(priorityArg, attrib0, priority);
    for k := 1 to |es|
      invariant f.pos == |f.data|
      invariant root.tag == old(root.tag) && root.children == old(root.children)
      invariant EntryCheck(es[0], priorityArg, attrib0) == Success(priority)
      invariant root.attrib == attrib0["priority" := NatToString(priority)]
      invariant ResolvedPriority(priorityArg, root.attrib) == Some(priority)
      invariant AllFit(es[..k]) && f.data == d0 + Records(es[..k], priority)
    {
      var next := WriteEntry(f, root, es[k], priorityArg);
      LaterEntry(es, k, priorityArg, attrib0, priority, root.attrib);
      if next.Failure? {
        return Failure(next.error);
      }
      RecordsStep(es, k, priority);
      AppendAssoc(d0, Records(es[..k], priority), EntryRecord(es[k], priority));
      assert next.value == priority;
      SetTwice(attrib0, "priority", NatToString(priority));
    }
    assert es[..|es|] == es;
    AllFitTail(es);
    r := Success(priority);
  }

  /** The end of the "0" file: `tell() + 4` patched into the size field at
      offset 6, the file reopened for update and read to its end, the CRC-32
      of what was read appended, and the whole file read for the CRC that
      goes into the index. */
  method FinishCatalog(f: ByteFile, es: seq<FileEntry>, archiveCrc: uint32, priority: nat, dir: string)
    returns (blob: seq<byte>, crc: uint32)
    requires Encodable(es, dir, priority)
    requires f.data == Signature + [0, 0, 0, 0] + TailHead(es, archiveCrc, dir) + Records(es, priority)
    requires f.pos == |f.data|
    modifies f
    ensures blob == CatalogBlob(es, archiveCrc, priority, dir) && crc == Crc32(blob)
  {
    HintFits(es);
    ghost var tail := Tail(es, archiveCrc, priority, dir);
    assert tail == TailHead(es, archiveCrc, dir) + Records(es, priority);
    AppendAssoc(Signature + [0, 0, 0, 0], TailHead(es, archiveCrc, dir), Records(es, priority));
    var size := f.Tell();
    size := size + 4;
    assert size == TotalSize(es, archiveCrc, priority, dir);
    f.Seek(6);
    var sizeBytes := ToBytes(size, 4);
    assert sizeBytes.Success?;
    f.Write(sizeBytes.value);
    OverwriteField(Signature, [0, 0, 0, 0], tail, sizeBytes.value);
    assert f.data == Patched(es, archiveCrc, priority, dir);
    var update := new ByteFile.Open(f.data);
    var body := update.ReadAll();
    var bodyCrc := ToBytes(Crc32(body), 4);
    assert bodyCrc.Success?;
    update.Append(bodyCrc.value);
    var final := new ByteFile.Open(update.data);
    var all := final.ReadAll();
    blob, crc := update.data, Crc32(all);
  }

  /** The "0" file of one package and the CRC-32 of the whole file written
      into the index: header and records, the size field patched at offset
      6, the file reopened and read, its CRC appended, and the file read once
      more for the final CRC. */
  method WriteCatalog(root: IndexTree, es: seq<FileEntry>, archiveCrc: uint32, priorityArg: Option<int>, dir: string)
    returns (r: Result<(seq<byte>, uint32), CatalogError>)
    requires IsAscii(dir) && forall i :: 0 <= i < |es| ==> IsAscii(es[i].name)
    modifies root
    ensures root.tag == old(root.tag) && root.children == old(root.children)
    ensures root.attrib == AttribAfter(es, dir, priorityArg, old(root.attrib))
    ensures CatalogCheck(es, dir, priorityArg, old(root.attrib)).Failure? ==>
      r == Failure(CatalogCheck(es, dir, priorityArg, old(root.attrib)).error)
    ensures CatalogCheck(es, dir, priorityArg, old(root.attrib)).Success? ==>
      var blob := CatalogBlob(es, archiveCrc, CatalogCheck(es, dir, priorityArg, old(root.attrib)).value, dir);
      r == Success((blob, Crc32(blob)))
  {
    if es == [] {
      return Failure(NoFiles);
    }
    var f := new ByteFile.Create();
    var header := WriteHeader(f, es, archiveCrc, dir);
    if header.Failure? {
      return Failure(header.error);
    }
    var entries := WriteEntries(f, root, es, priorityArg);
    if entries.Failure? {
      return Failure(entries.error);
    }
    var p := entries.value;
    ghost var check := CatalogCheck(es, dir, priorityArg, old(root.attrib));
    assert check == Success(p);
    var blob, crc := FinishCatalog(f, es, archiveCrc, p, dir);
    r := Success((blob, crc));
    assert check.Success? && check.value == p;
  }
}
