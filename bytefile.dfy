/** A binary file opened for writing or for update, as pack.py uses the "0"
    file: its contents and the current position. Writing at the position
    overwrites what is there and extends the file past its end. */
module ByteFiles {
  import opened Bytes

  /** The contents after writing bs at position pos. */
  function Overwrite(data: seq<byte>, pos: nat, bs: seq<byte>): (r: seq<byte>)
    requires pos <= |data|
    ensures |r| == if pos + |bs| < |data| then |data| else pos + |bs|
    ensures r[..pos] == data[..pos] && r[pos..pos + |bs|] == bs
    ensures pos + |bs| < |data| ==> r[pos + |bs|..] == data[pos + |bs|..]
  {
    data[..pos] + bs + (if pos + |bs| < |data| then data[pos + |bs|..] else [])
  }

  /** Writing at the end appends. */
  lemma OverwriteAtEnd(data: seq<byte>, bs: seq<byte>)
    ensures Overwrite(data, |data|, bs) == data + bs
  {
    assert data[..|data|] == data;
  }

  /** Writing over a field of the same width replaces that field alone. */
  lemma OverwriteField(a: seq<byte>, field: seq<byte>, c: seq<byte>, bs: seq<byte>)
    requires |bs| == |field|
    ensures Overwrite(a + field + c, |a|, bs) == a + bs + c
  {
    var data := a + field + c;
    assert data[..|a|] == a;
    if |a| + |bs| < |data| {
      assert data[|a| + |bs|..] == c;
    } else {
      assert c == [];
    }
  }

  /** Concatenation regroups; used to follow a file's contents append by append. */
  lemma AppendAssoc(a: seq<byte>, b: seq<byte>, c: seq<byte>)
    ensures a + b + c == a + (b + c)
  {
  }

  class ByteFile {
    var data: seq<byte>
    var pos: nat

    /** `open(path, "wb")`: an empty file. */
    constructor Create()
      ensures data == [] && pos == 0
    {
      data := [];
      pos := 0;
    }

    /** `open(path, "rb+")`: the existing contents, positioned at the start. */
    constructor Open(contents: seq<byte>)
      ensures data == contents && pos == 0
    {
      data := contents;
      pos := 0;
    }

    /** `f.write(bs)`. */
    method Write(bs: seq<byte>)
      requires pos <= |data|
      modifies this
      ensures data == Overwrite(old(data), old(pos), bs)
      ensures pos == old(pos) + |bs|
    {
      data := Overwrite(data, pos, bs);
      pos := pos + |bs|;
    }

    /** `f.write(bs)` at the end of the file: the bytes are appended. */
    method Append(bs: seq<byte>)
      requires pos == |data|
      modifies this
      ensures data == old(data) + bs && pos == |data|
    {
      OverwriteAtEnd(data, bs);
      Write(bs);
    }

    /** `f.tell()`. */
    method Tell() returns (p: nat)
      ensures p == pos
    {
      p := pos;
    }

    /** `f.seek(p)`, within the file. */
    method Seek(p: nat)
      requires p <= |data|
      modifies this
      ensures pos == p && data == old(data)
    {
      pos := p;
    }

    /** `f.read()`: everything from the position on; the position moves to the end. */
    method ReadAll() returns (bs: seq<byte>)
      requires pos <= |data|
      modifies this
      ensures bs == old(data)[old(pos)..]
      ensures pos == |data| && data == old(data)
    {
      bs := data[pos..];
      pos := |data|;
    }
  }
}
