/** The byte layout of the "0" catalog file that pack.py writes next to the
    content archive "1": the layout as a function of the inputs, a reference
    decoder, and the properties the loader relies on. */
module Catalog {
  import opened Wrappers
  import opened Bytes
  import opened Text
  import Paths

  /** One file placed in the content archive: its name and its size in bytes. */
  datatype FileEntry = FileEntry(name: string, size: nat)

  const Signature: seq<byte> := [0x42, 0x47, 0x72, 0x6D, 0x03, 0x02]

  lemma Pow256Values()
    ensures Pow256(1) == 0x100 && Pow256(2) == 0x1_0000 && Pow256(4) == 0x1_0000_0000
  {
    assert Pow256(1) == 256 * Pow256(0);
    assert Pow256(2) == 256 * Pow256(1);
    assert Pow256(3) == 256 * Pow256(2);
    assert Pow256(4) == 256 * Pow256(3);
  }

  /** A string write_str_to_file can write: its one-byte prefix `len + 1`
      must fit in a byte, and `encode()` must give one byte per character. */
  predicate Writable(s: string) {
    IsAscii(s) && |s| <= 254
  }

  /** write_str_to_file: the byte `len(s) + 1`, the characters, a NUL. */
  function LengthPrefixed(s: string): (r: seq<byte>)
    requires Writable(s)
    ensures |r| == |s| + 2
  {
    [|s| + 1] + AsciiBytes(s) + [0]
  }

  /** Reads a length-prefixed string back; None when the bytes are not one. */
  function DecodeLengthPrefixed(bs: seq<byte>): Option<(string, seq<byte>)> {
    if |bs| == 0 || bs[0] == 0 || |bs| <= bs[0] || bs[bs[0]] != 0 then None
    else Some((AsciiString(bs[1..bs[0]]), bs[bs[0] + 1..]))
  }

  lemma LengthPrefixedRoundTrip(s: string, rest: seq<byte>)
    requires Writable(s)
    ensures DecodeLengthPrefixed(LengthPrefixed(s) + rest) == Some((s, rest))
  {
    var bs := LengthPrefixed(s) + rest;
    assert bs[0] == |s| + 1;
    assert bs[1..|s| + 1] == AsciiBytes(s);
    assert bs[|s| + 2..] == rest;
    AsciiRoundTrip(s);
  }

  lemma ExtWritable(name: string)
    requires Writable(name)
    ensures Writable(Paths.Ext(name))
  {
    var x := Paths.Ext(name);
    if x != "" {
      var i := Paths.LastIndexOf(name, '.').value;
      assert x == name[i + 1..];
      assert forall j :: 0 <= j < |x| ==> x[j] == name[i + 1 + j];
    }
  }

  /** The "file skip" field of an entry: `2 * len(name) + len(ext) + 14`. */
  function Skip(name: string): nat {
    2 * |name| + |Paths.Ext(name)| + 14
  }

  /** What every `to_bytes` of an entry needs: a writable name and a size that fits 4 bytes. */
  predicate EntryFits(e: FileEntry) {
    Writable(e.name) && e.size < 0x1_0000_0000
  }

  predicate AllFit(es: seq<FileEntry>) {
    forall i :: 0 <= i < |es| ==> EntryFits(es[i])
  }

  /** One entry record: skip, name, extension, name again, size, priority, two zero bytes. */
  function EntryRecord(e: FileEntry, priority: nat): (r: seq<byte>)
    requires EntryFits(e) && priority < 0x1_0000
  {
    ExtWritable(e.name);
    Pow256Values();
    BigEndian(Skip(e.name), 2) + LengthPrefixed(e.name) + LengthPrefixed(Paths.Ext(e.name))
      + LengthPrefixed(e.name) + BigEndian(e.size, 4) + BigEndian(priority, 2) + [0, 0]
  }

  /** The skip field counts exactly the bytes of the record that follow it. */
  lemma EntrySkipCountsRest(e: FileEntry, priority: nat)
    requires EntryFits(e) && priority < 0x1_0000
    ensures |EntryRecord(e, priority)| == 2 + Skip(e.name)
    ensures FromBigEndian(EntryRecord(e, priority)[..2]) == Skip(e.name)
  {
    ExtWritable(e.name);
    Pow256Values();
    var r := EntryRecord(e, priority);
    assert r[..2] == BigEndian(Skip(e.name), 2);
    BigEndianRoundTrip(Skip(e.name), 2);
  }

  /** The records of all entries, in input order. */
  function Records(es: seq<FileEntry>, priority: nat): seq<byte>
    requires AllFit(es) && priority < 0x1_0000
  {
    if es == [] then [] else EntryRecord(es[0], priority) + Records(es[1..], priority)
  }

  lemma {:induction false} RecordsLength(es: seq<FileEntry>, priority: nat)
    requires AllFit(es) && priority < 0x1_0000
    ensures |Records(es, priority)| <= 777 * |es|
  {
    if es != [] {
      EntrySkipCountsRest(es[0], priority);
      RecordsLength(es[1..], priority);
    }
  }

  /** `sorted(names, key=len, reverse=True)[0]`: Python's sort is stable also
      when reversed, so this is the FIRST entry of maximal name length. */
  function LongestIndex(es: seq<FileEntry>): (k: nat)
    requires es != []
    ensures k < |es|
    ensures forall j :: 0 <= j < |es| ==> |es[j].name| <= |es[k].name|
    ensures forall j :: 0 <= j < k ==> |es[j].name| < |es[k].name|
  {
    if |es| == 1 then 0
    else
      var k := LongestIndex(es[..|es| - 1]);
      if |es[|es| - 1].name| > |es[k].name| then |es| - 1 else k
  }

  /** The header's "largest entry" hint: the skip formula of the first longest name. */
  function Hint(es: seq<FileEntry>): nat
    requires es != []
  {
    Skip(es[LongestIndex(es)].name)
  }

  /** The hint is fixed by the first name of maximal length, whatever index names it. */
  lemma HintIsFirstLongest(es: seq<FileEntry>, k: nat)
    requires k < |es|
    requires forall j :: 0 <= j < |es| ==> |es[j].name| <= |es[k].name|
    requires forall j :: 0 <= j < k ==> |es[j].name| < |es[k].name|
    ensures Hint(es) == Skip(es[k].name)
  {
    var m := LongestIndex(es);
    assert m == k;
  }

  /** The hint is not always the largest skip: two names of equal length, the
      first with the shorter extension. */
  lemma HintIsNotMaximumSkip()
    ensures var es := [FileEntry("abc.d", 1), FileEntry("a.png", 1)];
      Hint(es) == 25 && Skip(es[1].name) == 27
  {
    var es := [FileEntry("abc.d", 1), FileEntry("a.png", 1)];
    assert Paths.LastIndexOf("abc.d", '.') == Some(3);
    assert Paths.LastIndexOf("a.png", '.') == Some(1);
    HintIsFirstLongest(es, 0);
  }

  /** Every input condition under which pack.py writes the whole catalog
      without an OverflowError. */
  predicate Encodable(es: seq<FileEntry>, dir: string, priority: nat) {
    es != [] && AllFit(es) && |es| < 0x1_0000 && Writable(dir + "/1") && priority < 0x1_0000
  }

  lemma HintFits(es: seq<FileEntry>)
    requires es != [] && AllFit(es)
    ensures Hint(es) < 0x1_0000
  {
  }

  /** What the header fields need: a hint and an entry count that fit two
      bytes, and a writable archive path. */
  predicate HeaderFits(es: seq<FileEntry>, dir: string) {
    es != [] && Hint(es) < 0x1_0000 && Writable(dir + "/1") && |es| < 0x1_0000
  }

  /** The header after the size field, up to and including the entry count. */
  function TailHead(es: seq<FileEntry>, archiveCrc: uint32, dir: string): (r: seq<byte>)
    requires HeaderFits(es, dir)
    ensures |r| == |dir| + 21
  {
    Pow256Values();
    BigEndian(Hint(es), 2) + [0] + LengthPrefixed(dir + "/1") + [0, 1, 0, 8] + LengthPrefixed("1") + [1]
      + BigEndian(archiveCrc, 4) + BigEndian(|es|, 2)
  }

  function Tail(es: seq<FileEntry>, archiveCrc: uint32, priority: nat, dir: string): seq<byte>
    requires Encodable(es, dir, priority)
  {
    HintFits(es);
    TailHead(es, archiveCrc, dir) + Records(es, priority)
  }

  /** The value written into the size field: the final length, trailing CRC included. */
  function TotalSize(es: seq<FileEntry>, archiveCrc: uint32, priority: nat, dir: string): (n: nat)
    requires Encodable(es, dir, priority)
    ensures n < 0x1_0000_0000
  {
    RecordsLength(es, priority);
    10 + |Tail(es, archiveCrc, priority, dir)| + 4
  }

  /** Everything before the trailing CRC, after the size field was patched. */
  function Patched(es: seq<FileEntry>, archiveCrc: uint32, priority: nat, dir: string): seq<byte>
    requires Encodable(es, dir, priority)
  {
    Pow256Values();
    Signature + BigEndian(TotalSize(es, archiveCrc, priority, dir), 4) + Tail(es, archiveCrc, priority, dir)
  }

  /** The complete "0" file. */
  function CatalogBlob(es: seq<FileEntry>, archiveCrc: uint32, priority: nat, dir: string): seq<byte>
    requires Encodable(es, dir, priority)
  {
    Pow256Values();
    var body := Patched(es, archiveCrc, priority, dir);
    body + BigEndian(Crc32(body), 4)
  }

  /** The slices of a blob shaped signature, size field, tail, trailer. */
  lemma FrameSlices(sizeBytes: seq<byte>, tail: seq<byte>, trailer: seq<byte>, blob: seq<byte>)
    requires |sizeBytes| == 4 && blob == Signature + sizeBytes + tail + trailer
    ensures blob[..6] == Signature && blob[6..10] == sizeBytes
    ensures forall i, j :: 0 <= i <= j <= |tail| ==> blob[10 + i..10 + j] == tail[i..j]
  {
  }

  /** The blob starts with the signature, and its size field holds the blob's length. */
  lemma CatalogSignatureAndSize(es: seq<FileEntry>, archiveCrc: uint32, priority: nat, dir: string)
    requires Encodable(es, dir, priority)
    ensures var blob := CatalogBlob(es, archiveCrc, priority, dir);
      |blob| >= 14 && blob[..6] == Signature && FromBigEndian(blob[6..10]) == |blob|
  {
    Pow256Values();
    var n := TotalSize(es, archiveCrc, priority, dir);
    var sizeBytes := BigEndian(n, 4);
    var tail := Tail(es, archiveCrc, priority, dir);
    var body := Patched(es, archiveCrc, priority, dir);
    assert body == Signature + sizeBytes + tail;
    var blob := CatalogBlob(es, archiveCrc, priority, dir);
    assert blob == body + BigEndian(Crc32(body), 4);
    assert |blob| == n;
    FrameSlices(sizeBytes, tail, BigEndian(Crc32(body), 4), blob);
    BigEndianRoundTrip(n, 4);
  }

  /** The last four bytes are the big-endian CRC-32 of all bytes before them. */
  lemma CatalogTrailingCrc(es: seq<FileEntry>, archiveCrc: uint32, priority: nat, dir: string)
    requires Encodable(es, dir, priority)
    ensures var blob := CatalogBlob(es, archiveCrc, priority, dir);
      |blob| >= 4 && blob[|blob| - 4..] == BigEndian(Crc32(blob[..|blob| - 4]), 4)
  {
    Pow256Values();
    var blob := CatalogBlob(es, archiveCrc, priority, dir);
    var body := Patched(es, archiveCrc, priority, dir);
    assert blob[..|blob| - 4] == body;
  }

  /** The two bytes before the first record hold the number of entries. */
  lemma CatalogEntryCount(es: seq<FileEntry>, archiveCrc: uint32, priority: nat, dir: string)
    requires Encodable(es, dir, priority)
    ensures var blob := CatalogBlob(es, archiveCrc, priority, dir);
      |blob| >= |dir| + 31 && FromBigEndian(blob[|dir| + 29..|dir| + 31]) == |es|
  {
    Pow256Values();
    var n := TotalSize(es, archiveCrc, priority, dir);
    HintFits(es);
    var head := TailHead(es, archiveCrc, dir);
    var tail := Tail(es, archiveCrc, priority, dir);
    assert tail == head + Records(es, priority);
    var countBytes := BigEndian(|es|, 2);
    assert head[|dir| + 19..] == countBytes;
    assert tail[|dir| + 19..|dir| + 21] == countBytes;
    var body := Patched(es, archiveCrc, priority, dir);
    assert body == Signature + BigEndian(n, 4) + tail;
    var blob := CatalogBlob(es, archiveCrc, priority, dir);
    assert blob == body + BigEndian(Crc32(body), 4);
    FrameSlices(BigEndian(n, 4), tail, BigEndian(Crc32(body), 4), blob);
    assert blob[10 + |dir| + 19..10 + |dir| + 21] == countBytes;
    BigEndianRoundTrip(|es|, 2);
  }
}
