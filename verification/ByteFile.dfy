/** A `FILE *` as a byte buffer with a position. */
module ByteFiles {
  import opened Bytes

  /** The buffer after `bytes` have been written at `start`; a gap reads as zeros. */
  function Overwrite(data: seq<byte>, start: nat, bytes: seq<byte>): (r: seq<byte>)
    ensures start <= |data| ==>
      r == data[..start] + bytes + if start + |bytes| <= |data| then data[start + |bytes|..] else []
  {
    var head := if start <= |data| then data[..start] else data + seq(start - |data|, _ => 0);
    var tail := if start + |bytes| <= |data| then data[start + |bytes|..] else [];
    head + bytes + tail
  }

  lemma OverwriteNothing(data: seq<byte>, start: nat)
    requires start <= |data|
    ensures Overwrite(data, start, []) == data
  {
    assert data == data[..start] + [] + data[start..];
  }

  /** Writing two pieces one after the other is writing them joined. */
  lemma OverwriteJoins(data: seq<byte>, start: nat, first: seq<byte>, second: seq<byte>)
    requires start <= |data|
    ensures Overwrite(Overwrite(data, start, first), start + |first|, second) == Overwrite(data, start, first + second)
  {
    var one := Overwrite(data, start, first);
    assert one[..start + |first|] == data[..start] + first;
    var both := data[..start] + first + second;
    if start + |first| + |second| <= |data| {
      assert one[start + |first| + |second|..] == data[start + |first| + |second|..];
    }
    assert both == data[..start] + (first + second);
  }

  lemma OverwriteAtEnd(data: seq<byte>, bytes: seq<byte>)
    ensures Overwrite(data, |data|, bytes) == data + bytes
  {
  }

  /** A write in progress: `total` is being put at `start` over `before`, and its tail `todo` is still to come. */
  datatype Mark = Mark(before: seq<byte>, start: nat, total: seq<byte>, todo: seq<byte>) {
    ghost predicate Valid() {
      && start <= |before|
      && |todo| <= |total|
      && total[|total| - |todo|..] == todo
    }
    ghost function Written(): seq<byte>
      requires Valid()
    {
      total[..|total| - |todo|]
    }
  }

  class ByteFile {
    var data: seq<byte>
    var pos: nat

    constructor (bytes: seq<byte>)
      ensures data == bytes && pos == 0
    {
      data, pos := bytes, 0;
    }

    /** `fseeko(fp, offset, SEEK_SET)` */
    method Seek(offset: nat)
      modifies this`pos
      ensures pos == offset
    {
      pos := offset;
    }

    /** `fwrite` of `bytes` */
    method Write(bytes: seq<byte>)
      modifies this
      ensures data == Overwrite(old(data), old(pos), bytes)
      ensures pos == old(pos) + |bytes|
    {
      data := Overwrite(data, pos, bytes);
      pos := pos + |bytes|;
    }

    /** `fread` of up to `n` bytes: fewer come back only when the data ends. */
    method Read(n: nat) returns (bytes: seq<byte>)
      modifies this`pos
      ensures bytes <= Ahead(old(data), old(pos))
      ensures |bytes| == if n <= |Ahead(old(data), old(pos))| then n else |Ahead(old(data), old(pos))|
      ensures pos == old(pos) + |bytes|
    {
      var ahead := Ahead(data, pos);
      bytes := if n <= |ahead| then ahead[..n] else ahead;
      pos := pos + |bytes|;
    }

    /** The file stands where the write described by m has got to. */
    ghost predicate At(m: Mark)
      reads this
    {
      m.Valid() && data == Overwrite(m.before, m.start, m.Written()) && pos == m.start + |m.Written()|
    }

    /** Writes the next piece of what m describes and leaves `rest` to come. */
    method Put(bytes: seq<byte>, ghost m: Mark, ghost rest: seq<byte>) returns (ghost next: Mark)
      requires At(m)
      requires m.todo == bytes + rest
      modifies this
      ensures next == m.(todo := rest) && At(next)
    {
      Write(bytes);
      next := m.(todo := rest);
      OverwriteJoins(m.before, m.start, m.Written(), bytes);
      assert next.Written() == m.Written() + bytes by {
        assert m.total == m.Written() + m.todo;
      }
    }
  }

  /** The bytes from position `pos` to the end. */
  function Ahead(data: seq<byte>, pos: nat): seq<byte> {
    if pos <= |data| then data[pos..] else []
  }
}
