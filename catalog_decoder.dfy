/** A reader for the "0" catalog file, written from the layout the game's
    loader expects, and the proof that it reads back what the writer wrote. */
module CatalogDecoder {
  import opened Wrappers
  import opened Bytes
  import opened Catalog
  import Paths

  datatype DecodedEntry = DecodedEntry(skip: nat, name: string, ext: string, internalName: string, size: nat, priority: nat)

  datatype DecodedCatalog = DecodedCatalog(hint: nat, archivePath: string, archiveName: string, archiveCrc: nat, entries: seq<DecodedEntry>)

  function TakeNumber(bs: seq<byte>, k: nat): Option<(nat, seq<byte>)> {
    if |bs| < k then None else Some((FromBigEndian(bs[..k]), bs[k..]))
  }

  function TakeFixed(bs: seq<byte>, expected: seq<byte>): Option<seq<byte>> {
    if |bs| >= |expected| && bs[..|expected|] == expected then Some(bs[|expected|..]) else None
  }

  function DecodeEntry(bs: seq<byte>): Option<(DecodedEntry, seq<byte>)> {
    var skip :- TakeNumber(bs, 2);
    var name :- DecodeLengthPrefixed(skip.1);
    var ext :- DecodeLengthPrefixed(name.1);
    var internal :- DecodeLengthPrefixed(ext.1);
    var size :- TakeNumber(internal.1, 4);
    var priority :- TakeNumber(size.1, 2);
    var rest :- TakeFixed(priority.1, [0, 0]);
    Some((DecodedEntry(skip.0, name.0, ext.0, internal.0, size.0, priority.0), rest))
  }

  function DecodeEntries(bs: seq<byte>, n: nat): Option<(seq<DecodedEntry>, seq<byte>)> {
    if n == 0 then Some(([], bs))
    else
      var first :- DecodeEntry(bs);
      var others :- DecodeEntries(first.1, n - 1);
      Some(([first.0] + others.0, others.1))
  }

  /** Reads a whole catalog: trailing CRC, signature, size field equal to the
      length; then the header and the records (DecodeTail). */
  function DecodeCatalog(blob: seq<byte>): Option<DecodedCatalog> {
    if |blob| < 4 || FromBigEndian(blob[|blob| - 4..]) != Crc32(blob[..|blob| - 4]) then None
    else DecodeBody(blob[..|blob| - 4], |blob|)
  }

  function DecodeBody(body: seq<byte>, total: nat): Option<DecodedCatalog> {
    var r0 :- TakeFixed(body, Signature);
    var size :- TakeNumber(r0, 4);
    if size.0 != total then None else DecodeTail(size.1)
  }

  /** The header after the size field: hint, archive path and name with their
      fixed bytes, archive CRC, count, and exactly that many records. */
  function DecodeTail(t: seq<byte>): Option<DecodedCatalog> {
    var hint :- TakeNumber(t, 2);
    var r1 :- TakeFixed(hint.1, [0]);
    var path :- DecodeLengthPrefixed(r1);
    var r2 :- TakeFixed(path.1, [0, 1, 0, 8]);
    var name :- DecodeLengthPrefixed(r2);
    var r3 :- TakeFixed(name.1, [1]);
    var crc :- TakeNumber(r3, 4);
    var count :- TakeNumber(crc.1, 2);
    var entries :- DecodeEntries(count.1, count.0);
    if entries.1 != [] then None
    else Some(DecodedCatalog(hint.0, path.0, name.0, crc.0, entries.0))
  }

  /** What the reader should find for each input entry: its skip, its name,
      its extension, its name again, its size and the run's priority. */
  function Expected(es: seq<FileEntry>, priority: nat): (r: seq<DecodedEntry>)
    ensures |r| == |es|
  {
    if es == [] then []
    else
      var n := es[0].name;
      [DecodedEntry(Skip(n), n, Paths.Ext(n), n, es[0].size, priority)] + Expected(es[1..], priority)
  }

  lemma TakeNumberOf(n: nat, k: nat, rest: seq<byte>)
    requires n < Pow256(k)
    ensures TakeNumber(BigEndian(n, k) + rest, k) == Some((n, rest))
  {
    var bs := BigEndian(n, k) + rest;
    assert bs[..k] == BigEndian(n, k);
    assert bs[k..] == rest;
    BigEndianRoundTrip(n, k);
  }

  lemma TakeFixedOf(x: seq<byte>, rest: seq<byte>)
    ensures TakeFixed(x + rest, x) == Some(rest)
  {
    assert (x + rest)[..|x|] == x;
    assert (x + rest)[|x|..] == rest;
  }

  lemma Reassociate7<T>(a: seq<T>, b: seq<T>, c: seq<T>, d: seq<T>, e: seq<T>, f: seq<T>, g: seq<T>, rest: seq<T>)
    ensures a + b + c + d + e + f + g + rest == a + (b + (c + (d + (e + (f + (g + rest))))))
  {
  }

  lemma Reassociate8<T>(a: seq<T>, b: seq<T>, c: seq<T>, d: seq<T>, e: seq<T>, f: seq<T>, g: seq<T>, h: seq<T>, rest: seq<T>)
    ensures a + b + c + d + e + f + g + h + rest == a + (b + (c + (d + (e + (f + (g + (h + rest)))))))
  {
  }

  lemma EntryRecordParts(e: FileEntry, priority: nat, rest: seq<byte>)
    requires EntryFits(e) && priority < 0x1_0000
    ensures Pow256(2) == 0x1_0000 && Pow256(4) == 0x1_0000_0000 && Writable(Paths.Ext(e.name))
    ensures EntryRecord(e, priority) + rest
         == BigEndian(Skip(e.name), 2) + (LengthPrefixed(e.name) + (LengthPrefixed(Paths.Ext(e.name))
            + (LengthPrefixed(e.name) + (BigEndian(e.size, 4) + (BigEndian(priority, 2) + ([0, 0] + rest))))))
  {
    Pow256Values();
    ExtWritable(e.name);
    var p1, p2, p3 := BigEndian(Skip(e.name), 2), LengthPrefixed(e.name), LengthPrefixed(Paths.Ext(e.name));
    var p5, p6 := BigEndian(e.size, 4), BigEndian(priority, 2);
    assert EntryRecord(e, priority) == p1 + p2 + p3 + p2 + p5 + p6 + [0, 0];
    Reassociate7(p1, p2, p3, p2, p5, p6, [0, 0], rest);
  }

  /** DecodeEntry from the results of its seven steps. */
  lemma DecodeEntrySteps(bs: seq<byte>, d: DecodedEntry, r1: seq<byte>, r2: seq<byte>, r3: seq<byte>,
                         r4: seq<byte>, r5: seq<byte>, r6: seq<byte>, rest: seq<byte>)
    requires TakeNumber(bs, 2) == Some((d.skip, r1))
    requires DecodeLengthPrefixed(r1) == Some((d.name, r2))
    requires DecodeLengthPrefixed(r2) == Some((d.ext, r3))
    requires DecodeLengthPrefixed(r3) == Some((d.internalName, r4))
    requires TakeNumber(r4, 4) == Some((d.size, r5))
    requires TakeNumber(r5, 2) == Some((d.priority, r6))
    requires TakeFixed(r6, [0, 0]) == Some(rest)
    ensures DecodeEntry(bs) == Some((d, rest))
  {
  }

  /** The round trip of one record, over its field values alone. */
  lemma DecodeFieldsRoundTrip(skip: nat, name: string, ext: string, size: nat, priority: nat, rest: seq<byte>)
    requires Writable(name) && Writable(ext)
    requires skip < Pow256(2) && size < Pow256(4) && priority < Pow256(2)
    ensures DecodeEntry(BigEndian(skip, 2) + (LengthPrefixed(name) + (LengthPrefixed(ext)
            + (LengthPrefixed(name) + (BigEndian(size, 4) + (BigEndian(priority, 2) + ([0, 0] + rest)))))))
         == Some((DecodedEntry(skip, name, ext, name, size, priority), rest))
  {
    var r6 := [0, 0] + rest;
    var r5 := BigEndian(priority, 2) + r6;
    var r4 := BigEndian(size, 4) + r5;
    var r3 := LengthPrefixed(name) + r4;
    var r2 := LengthPrefixed(ext) + r3;
    var r1 := LengthPrefixed(name) + r2;
    TakeNumberOf(skip, 2, r1);
    LengthPrefixedRoundTrip(name, r2);
    LengthPrefixedRoundTrip(ext, r3);
    LengthPrefixedRoundTrip(name, r4);
    TakeNumberOf(size, 4, r5);
    TakeNumberOf(priority, 2, r6);
    TakeFixedOf([0, 0], rest);
    DecodeEntrySteps(BigEndian(skip, 2) + r1, DecodedEntry(skip, name, ext, name, size, priority), r1, r2, r3, r4, r5, r6, rest);
  }

  lemma DecodeEntryRoundTrip(e: FileEntry, priority: nat, rest: seq<byte>)
    requires EntryFits(e) && priority < 0x1_0000
    ensures DecodeEntry(EntryRecord(e, priority) + rest)
         == Some((DecodedEntry(Skip(e.name), e.name, Paths.Ext(e.name), e.name, e.size, priority), rest))
  {
    EntryRecordParts(e, priority, rest);
    DecodeFieldsRoundTrip(Skip(e.name), e.name, Paths.Ext(e.name), e.size, priority, rest);
  }

  lemma DecodeEntriesStep(bs: seq<byte>, n: nat, first: DecodedEntry, others: seq<byte>, xs: seq<DecodedEntry>, rest: seq<byte>)
    requires n > 0
    requires DecodeEntry(bs) == Some((first, others))
    requires DecodeEntries(others, n - 1) == Some((xs, rest))
    ensures DecodeEntries(bs, n) == Some(([first] + xs, rest))
  {
  }

  lemma {:induction false} DecodeEntriesRoundTrip(es: seq<FileEntry>, priority: nat, rest: seq<byte>)
    requires AllFit(es) && priority < 0x1_0000
    ensures DecodeEntries(Records(es, priority) + rest, |es|) == Some((Expected(es, priority), rest))
  {
    if es == [] {
      assert Records(es, priority) + rest == rest;
    } else {
      var e := es[0];
      var others := Records(es[1..], priority) + rest;
      assert Records(es, priority) + rest == EntryRecord(e, priority) + others;
      DecodeEntryRoundTrip(e, priority, others);
      DecodeEntriesRoundTrip(es[1..], priority, rest);
      var first := DecodedEntry(Skip(e.name), e.name, Paths.Ext(e.name), e.name, e.size, priority);
      assert Expected(es, priority) == [first] + Expected(es[1..], priority);
      DecodeEntriesStep(Records(es, priority) + rest, |es|, first, others, Expected(es[1..], priority), rest);
    }
  }

  lemma TailParts(es: seq<FileEntry>, archiveCrc: uint32, priority: nat, dir: string)
    requires Encodable(es, dir, priority)
    ensures Pow256(2) == 0x1_0000 && Pow256(4) == 0x1_0000_0000 && Hint(es) < 0x1_0000
    ensures Tail(es, archiveCrc, priority, dir)
         == BigEndian(Hint(es), 2) + ([0] + (LengthPrefixed(dir + "/1") + ([0, 1, 0, 8] + (LengthPrefixed("1")
            + ([1] + (BigEndian(archiveCrc, 4) + (BigEndian(|es|, 2) + Records(es, priority))))))))
  {
    Pow256Values();
    HintFits(es);
    var p1, p3, p5 := BigEndian(Hint(es), 2), LengthPrefixed(dir + "/1"), LengthPrefixed("1");
    var p7, p8 := BigEndian(archiveCrc, 4), BigEndian(|es|, 2);
    assert TailHead(es, archiveCrc, dir) == p1 + [0] + p3 + [0, 1, 0, 8] + p5 + [1] + p7 + p8;
    Reassociate8(p1, [0], p3, [0, 1, 0, 8], p5, [1], p7, p8, Records(es, priority));
  }

  /** DecodeTail from the results of its steps. */
  lemma DecodeTailSteps(t: seq<byte>, d: DecodedCatalog, h1: seq<byte>, c0: seq<byte>, c1: seq<byte>, c2: seq<byte>,
                        c3: seq<byte>, c4: seq<byte>, c5: seq<byte>, records: seq<byte>)
    requires TakeNumber(t, 2) == Some((d.hint, h1))
    requires TakeFixed(h1, [0]) == Some(c0)
    requires DecodeLengthPrefixed(c0) == Some((d.archivePath, c1))
    requires TakeFixed(c1, [0, 1, 0, 8]) == Some(c2)
    requires DecodeLengthPrefixed(c2) == Some((d.archiveName, c3))
    requires TakeFixed(c3, [1]) == Some(c4)
    requires TakeNumber(c4, 4) == Some((d.archiveCrc, c5))
    requires TakeNumber(c5, 2) == Some((|d.entries|, records))
    requires DecodeEntries(records, |d.entries|) == Some((d.entries, []))
    ensures DecodeTail(t) == Some(d)
  {
  }

  /** The round trip of the header and records, over the field values alone. */
  lemma DecodeHeaderRoundTrip(hint: nat, path: string, name: string, crc: nat, entries: seq<DecodedEntry>, records: seq<byte>)
    requires Writable(path) && Writable(name)
    requires hint < Pow256(2) && crc < Pow256(4) && |entries| < Pow256(2)
    requires DecodeEntries(records, |entries|) == Some((entries, []))
    ensures DecodeTail(BigEndian(hint, 2) + ([0] + (LengthPrefixed(path) + ([0, 1, 0, 8] + (LengthPrefixed(name)
            + ([1] + (BigEndian(crc, 4) + (BigEndian(|entries|, 2) + records))))))))
         == Some(DecodedCatalog(hint, path, name, crc, entries))
  {
    var c5 := BigEndian(|entries|, 2) + records;
    var c4 := BigEndian(crc, 4) + c5;
    var c3 := [1] + c4;
    var c2 := LengthPrefixed(name) + c3;
    var c1 := [0, 1, 0, 8] + c2;
    var c0 := LengthPrefixed(path) + c1;
    var h1 := [0] + c0;
    TakeNumberOf(hint, 2, h1);
    TakeFixedOf([0], c0);
    LengthPrefixedRoundTrip(path, c1);
    TakeFixedOf([0, 1, 0, 8], c2);
    LengthPrefixedRoundTrip(name, c3);
    TakeFixedOf([1], c4);
    TakeNumberOf(crc, 4, c5);
    TakeNumberOf(|entries|, 2, records);
    DecodeTailSteps(BigEndian(hint, 2) + h1, DecodedCatalog(hint, path, name, crc, entries), h1, c0, c1, c2, c3, c4, c5, records);
  }

  lemma DecodeTailRoundTrip(es: seq<FileEntry>, archiveCrc: uint32, priority: nat, dir: string)
    requires Encodable(es, dir, priority)
    ensures DecodeTail(Tail(es, archiveCrc, priority, dir))
         == Some(DecodedCatalog(Hint(es), dir + "/1", "1", archiveCrc, Expected(es, priority)))
  {
    TailParts(es, archiveCrc, priority, dir);
    var records := Records(es, priority);
    assert records == records + [];
    DecodeEntriesRoundTrip(es, priority, []);
    DecodeHeaderRoundTrip(Hint(es), dir + "/1", "1", archiveCrc, Expected(es, priority), records);
  }

  /** The frame: signature, size field, tail, then the CRC of all before it. */
  lemma DecodeFrame(tail: seq<byte>, n: nat)
    requires n == 10 + |tail| + 4 && n < 0x1_0000_0000
    ensures var body := Signature + BigEndian(n, 4) + tail;
      DecodeCatalog(body + BigEndian(Crc32(body), 4)) == DecodeTail(tail)
  {
    Pow256Values();
    var s0 := BigEndian(n, 4) + tail;
    var body := Signature + BigEndian(n, 4) + tail;
    assert body == Signature + s0;
    var trailer := BigEndian(Crc32(body), 4);
    var blob := body + trailer;
    assert |blob| == n;
    assert blob[..|blob| - 4] == body;
    assert blob[|blob| - 4..] == trailer;
    BigEndianRoundTrip(Crc32(body), 4);
    TakeFixedOf(Signature, s0);
    TakeNumberOf(n, 4, tail);
  }

  /** The reader recovers from the written blob the hint, the archive path
      `<dir>/1`, the archive name, the archive CRC and, in order, every
      entry's skip, name, extension, size and the common priority; on the way
      it checks the signature, the size field and the trailing CRC. */
  lemma DecodeCatalogRoundTrip(es: seq<FileEntry>, archiveCrc: uint32, priority: nat, dir: string)
    requires Encodable(es, dir, priority)
    ensures DecodeCatalog(CatalogBlob(es, archiveCrc, priority, dir))
         == Some(DecodedCatalog(Hint(es), dir + "/1", "1", archiveCrc, Expected(es, priority)))
  {
    var n := TotalSize(es, archiveCrc, priority, dir);
    var tail := Tail(es, archiveCrc, priority, dir);
    DecodeFrame(tail, n);
    DecodeTailRoundTrip(es, archiveCrc, priority, dir);
  }
}
