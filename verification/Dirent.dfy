/** Directory entries and their two on-disk forms: the central header (section 4.3.12 of APPNOTE.TXT)
    and the local header (section 4.3.7). */
module Dirents {
  import opened Bytes
  import opened ByteFiles

  const LOCAL_MAGIC: seq<byte> := [0x50, 0x4B, 3, 4]
  const CENTRAL_MAGIC: seq<byte> := [0x50, 0x4B, 1, 2]
  const LENTRYSIZE := 30
  const CDENTRYSIZE := 46

  /** What `zip_error` records. */
  datatype ZipError =
    | ErMultiDisk | ErRead | ErExists | ErChanged | ErCompNotSupp | ErEof | ErInval | ErNoZip
    | ErSource | ErIncons | ErDeleted | ErRdOnly | ErEncMismatch | ErCrc | ErWrongPasswd

  datatype DosTime = DosTime(time: u16, date: u16)

  /** A string stored with a 16-bit length. */
  type Field = s: seq<byte> | |s| < 0x1_0000 witness []

  /** `struct zip_dirent`; the compression method is a signed word because ZIP_CM_DEFAULT is -1. */
  datatype Dirent = Dirent(
    versionMadeby: u16, versionNeeded: u16, bitflags: u16, compMethod: int, lastMod: DosTime,
    crc: u32, compSize: u32, uncompSize: u32,
    diskNumber: u16, intAttrib: u16, extAttrib: u32, offset: u32,
    filename: CString, extra: Field, comment: Field)

  /** `_zip_dirent_init`; `epoch` is what local time makes of time_t 0. */
  function InitDirent(epoch: DosTime): Dirent {
    Dirent(0, 20, 0, 0, epoch, 0, 0, 0, 0, 0, 0, 0, [], [], [])
  }

  // ----- writing

  function HeaderSize(local: bool): nat {
    if local then LENTRYSIZE else CDENTRYSIZE
  }

  /** The part of the name that a 16-bit length lets out. */
  function WrittenName(d: Dirent): (name: CString)
    ensures |name| < 0x1_0000
    ensures |d.filename| < 0x1_0000 ==> name == d.filename
  {
    d.filename[..Low16(|d.filename|)]
  }

  /** The ten fields both headers share, in order, followed by `rest`. */
  function SharedFields(d: Dirent, rest: seq<byte>): (s: seq<byte>)
    ensures |s| == 26 + |rest|
  {
    Le16(d.versionNeeded) + (Le16(d.bitflags) + (Le16(Low16(d.compMethod))
      + (Le16(d.lastMod.time) + (Le16(d.lastMod.date)
      + (Le32(d.crc) + (Le32(d.compSize) + (Le32(d.uncompSize)
      + (Le16(|WrittenName(d)|) + (Le16(|d.extra|) + rest)))))))))
  }

  /** The fields only a central header has, between the shared ones and the strings. */
  function CentralFields(d: Dirent, rest: seq<byte>): (s: seq<byte>)
    ensures |s| == 14 + |rest|
  {
    Le16(|d.comment|) + (Le16(d.diskNumber) + (Le16(d.intAttrib) + (Le32(d.extAttrib) + (Le32(d.offset) + rest))))
  }

  /** A whole header with its strings. */
  function HeaderBytes(d: Dirent, local: bool): (s: seq<byte>)
    ensures |s| == HeaderSize(local) + |WrittenName(d)| + |d.extra| + (if local then 0 else |d.comment|)
  {
    if local then
      LOCAL_MAGIC + SharedFields(d, WrittenName(d) + d.extra)
    else
      CENTRAL_MAGIC + (Le16(d.versionMadeby)
        + SharedFields(d, CentralFields(d, WrittenName(d) + (d.extra + d.comment))))
  }

  /** `_zip_dirent_write`: puts the header at the file position, over what was there. */
  method WriteDirent(d: Dirent, fp: ByteFile, local: bool)
    requires fp.pos <= |fp.data|
    modifies fp
    ensures fp.data == Overwrite(old(fp.data), old(fp.pos), HeaderBytes(d, local))
    ensures fp.pos == old(fp.pos) + |HeaderBytes(d, local)|
  {
    var name := WrittenName(d);
    ghost var total := HeaderBytes(d, local);
    ghost var m := Mark(fp.data, fp.pos, total, total);
    OverwriteNothing(fp.data, fp.pos);
    assert total[|total| - |total|..] == total && total[..0] == [];
    ghost var strings := name + (if local then d.extra else d.extra + d.comment);
    ghost var afterShared := if local then strings else CentralFields(d, strings);
    ghost var shared := SharedFields(d, afterShared);
    m := fp.Put(if local then LOCAL_MAGIC else CENTRAL_MAGIC, m,
                if local then shared else Le16(d.versionMadeby) + shared);
    if !local {
      m := fp.Put(Le16(d.versionMadeby), m, shared);
    }
    m := WriteShared(d, fp, m, afterShared);
    if !local {
      m := WriteCentral(d, fp, m, strings);
    }
    m := fp.Put(name, m, if local then d.extra else d.extra + d.comment);
    m := fp.Put(d.extra, m, if local then [] else d.comment);
    if !local {
      m := fp.Put(d.comment, m, []);
    }
    assert m.Written() == total;
  }

  method WriteShared(d: Dirent, fp: ByteFile, ghost m: Mark, ghost rest: seq<byte>) returns (ghost next: Mark)
    requires fp.At(m) && m.todo == SharedFields(d, rest)
    modifies fp
    ensures next == m.(todo := rest) && fp.At(next)
  {
    ghost var r9 := Le16(|d.extra|) + rest;
    ghost var r8 := Le16(|WrittenName(d)|) + r9;
    ghost var r7 := Le32(d.uncompSize) + r8;
    ghost var r6 := Le32(d.compSize) + r7;
    ghost var r5 := Le32(d.crc) + r6;
    ghost var r4 := Le16(d.lastMod.date) + r5;
    ghost var r3 := Le16(d.lastMod.time) + r4;
    ghost var r2 := Le16(Low16(d.compMethod)) + r3;
    next := fp.Put(Le16(d.versionNeeded), m, Le16(d.bitflags) + r2);
    next := fp.Put(Le16(d.bitflags), next, r2);
    next := fp.Put(Le16(Low16(d.compMethod)), next, r3);
    next := fp.Put(Le16(d.lastMod.time), next, r4);
    next := fp.Put(Le16(d.lastMod.date), next, r5);
    next := fp.Put(Le32(d.crc), next, r6);
    next := fp.Put(Le32(d.compSize), next, r7);
    next := fp.Put(Le32(d.uncompSize), next, r8);
    next := fp.Put(Le16(|WrittenName(d)|), next, r9);
    next := fp.Put(Le16(|d.extra|), next, rest);
  }

  method WriteCentral(d: Dirent, fp: ByteFile, ghost m: Mark, ghost rest: seq<byte>) returns (ghost next: Mark)
    requires fp.At(m) && m.todo == CentralFields(d, rest)
    modifies fp
    ensures next == m.(todo := rest) && fp.At(next)
  {
    ghost var r4 := Le32(d.offset) + rest;
    ghost var r3 := Le32(d.extAttrib) + r4;
    ghost var r2 := Le16(d.intAttrib) + r3;
    next := fp.Put(Le16(|d.comment|), m, Le16(d.diskNumber) + r2);
    next := fp.Put(Le16(d.diskNumber), next, r2);
    next := fp.Put(Le16(d.intAttrib), next, r3);
    next := fp.Put(Le32(d.extAttrib), next, r4);
    next := fp.Put(Le32(d.offset), next, rest);
  }

  // ----- reading

  function Magic(local: bool): seq<byte> {
    if local then LOCAL_MAGIC else CENTRAL_MAGIC
  }

  /** The fixed fields by their offsets in APPNOTE.TXT; the strings are not read yet. */
  function FixedFields(s: seq<byte>, local: bool): Dirent
    requires |s| >= HeaderSize(local)
  {
    var k := if local then 0 else 2;
    Dirent(
      if local then 0 else At16(s, 4), At16(s, k + 4), At16(s, k + 6), At16(s, k + 8),
      DosTime(At16(s, k + 10), At16(s, k + 12)), At32(s, k + 14), At32(s, k + 18), At32(s, k + 22),
      if local then 0 else At16(s, 34), if local then 0 else At16(s, 36),
      if local then 0 else At32(s, 38), if local then 0 else At32(s, 42), [], [], [])
  }

  function NameLength(s: seq<byte>, local: bool): u16
    requires |s| >= HeaderSize(local)
  {
    At16(s, if local then 26 else 28)
  }

  function ExtraLength(s: seq<byte>, local: bool): u16
    requires |s| >= HeaderSize(local)
  {
    At16(s, if local then 28 else 30)
  }

  function CommentLength(s: seq<byte>, local: bool): u16
    requires |s| >= HeaderSize(local)
  {
    if local then 0 else At16(s, 32)
  }

  /** In-string NULs become spaces. */
  function Spaced(s: seq<byte>): (name: CString)
    ensures |name| == |s|
    ensures 0 !in s ==> name == s
  {
    seq(|s|, i requires 0 <= i < |s| => if s[i] == 0 then 0x20 else s[i])
  }

  /** How many bytes the header at the front of s says it takes. */
  function WholeSize(s: seq<byte>, local: bool): nat
    requires |s| >= HeaderSize(local)
  {
    HeaderSize(local) + NameLength(s, local) + ExtraLength(s, local) + CommentLength(s, local)
  }

  /** The three strings at the front of s. */
  function StringsOf(s: seq<byte>, n: u16, x: u16, c: u16): (CString, Field, Field)
    requires |s| >= n + x + c
  {
    (Spaced(s[..n]), s[n..n + x], s[n + x..n + x + c])
  }

  /** The whole entry: the fixed fields and the strings behind them. */
  function WithStrings(s: seq<byte>, local: bool): Dirent
    requires |s| >= HeaderSize(local) && |s| >= WholeSize(s, local)
  {
    var (name, extra, comment) :=
      StringsOf(s[HeaderSize(local)..], NameLength(s, local), ExtraLength(s, local), CommentLength(s, local));
    FixedFields(s, local).(filename := name, extra := extra, comment := comment)
  }

  /** What `_zip_dirent_read` makes of the bytes s ahead of it, `left` of which it may use (all of them if None):
      the entry and the number of bytes it took. */
  function ParseDirent(s: seq<byte>, left: Option<nat>, local: bool): (r: Result<(Dirent, nat), ZipError>)
    ensures r.Ok? ==> HeaderSize(local) <= r.value.1 <= |s| && (left.Some? ==> r.value.1 <= left.value)
  {
    if left.Some? && left.value < HeaderSize(local) then Err(ErNoZip)
    else if |s| < HeaderSize(local) then Err(ErRead)
    else if s[..4] != Magic(local) then Err(ErNoZip)
    else if left.Some? && left.value < WholeSize(s, local) then Err(ErNoZip)
    else if |s| < WholeSize(s, local) then Err(ErRead)
    else Ok((WithStrings(s, local), WholeSize(s, local)))
  }

  /** The bytes `_zip_dirent_read` looks at: the buffer from its cursor if there is one, else the file from where it
      stands. */
  function Source(buf: Option<seq<byte>>, cur: nat, data: seq<byte>, pos: nat): seq<byte> {
    if buf.Some? then Ahead(buf.value, cur) else Ahead(data, pos)
  }

  /** Takes n bytes from the buffer or the file, as `_zip_readstr` and `_zip_readfpstr` do; fewer come only from a
      file that ends. */
  method TakeBytes(fp: ByteFile, buf: Option<seq<byte>>, cur: nat, n: nat) returns (bytes: seq<byte>, newCur: nat)
    requires buf.Some? ==> cur + n <= |buf.value|
    modifies fp`pos
    ensures var s := Source(buf, cur, fp.data, old(fp.pos));
      if |s| < n then |bytes| < n else bytes == s[..n] && Source(buf, newCur, fp.data, fp.pos) == s[n..]
    ensures if buf.Some? then newCur == cur + n && fp.pos == old(fp.pos)
            else newCur == cur && fp.pos == old(fp.pos) + |bytes|
  {
    if buf.Some? {
      return buf.value[cur..cur + n], cur + n;
    }
    bytes := fp.Read(n);
    newCur := cur;
  }

  /** The first half of `_zip_dirent_read`: the fixed part, checked against the limit. */
  method ReadHeader(fp: ByteFile, buf: Option<seq<byte>>, cur: nat, left: Option<nat>, local: bool)
    returns (r: Result<(Dirent, u16, u16, u16), ZipError>, newCur: nat)
    requires buf.Some? ==> left.Some? && cur + left.value <= |buf.value|
    modifies fp`pos
    ensures var s := Source(buf, cur, fp.data, old(fp.pos));
      var size := HeaderSize(local);
      if left.Some? && left.value < size then r == Err(ErNoZip)
      else if |s| < size then r == Err(ErRead)
      else if s[..4] != Magic(local) || (left.Some? && left.value < WholeSize(s, local)) then r == Err(ErNoZip)
      else
        && r == Ok((FixedFields(s, local), NameLength(s, local), ExtraLength(s, local), CommentLength(s, local)))
        && Source(buf, newCur, fp.data, fp.pos) == s[size..]
        && (if buf.Some? then newCur == cur + size && fp.pos == old(fp.pos)
            else newCur == cur && fp.pos == old(fp.pos) + size)
  {
    newCur := cur;
    var size: nat := HeaderSize(local);
    if left.Some? && left.value < size {
      return Err(ErNoZip), cur;
    }
    ghost var s := Source(buf, cur, fp.data, fp.pos);
    var b;
    b, newCur := TakeBytes(fp, buf, cur, size);
    if |b| < size {
      return Err(ErRead), newCur;
    }
    assert b[..4] == s[..4];
    if b[..4] != Magic(local) {
      return Err(ErNoZip), newCur;
    }
    var d, nameLength, extraLength, commentLength := ReadFixed(b, local, s);
    size := size + nameLength + extraLength + commentLength;
    if left.Some? && left.value < size {
      return Err(ErNoZip), newCur;
    }
    r := Ok((d, nameLength, extraLength, commentLength));
  }

  /** `_zip_dirent_read`: from `buf` at `cur` when a buffer is given, from the file otherwise. A caller that
      gives a buffer also gives a limit that keeps inside it. */
  method ReadDirent(fp: ByteFile, buf: Option<seq<byte>>, cur: nat, left: Option<nat>, local: bool)
    returns (r: Result<Dirent, ZipError>, newCur: nat, newLeft: Option<nat>)
    requires buf.Some? ==> left.Some? && cur + left.value <= |buf.value|
    modifies fp`pos
    ensures match ParseDirent(Source(buf, cur, fp.data, old(fp.pos)), left, local)
            case Err(e) => r == Err(e)
            case Ok((d, n)) =>
              && r == Ok(d)
              && newLeft == (if left.Some? then Some(left.value - n) else None)
              && (if buf.Some? then newCur == cur + n && fp.pos == old(fp.pos) else fp.pos == old(fp.pos) + n)
  {
    newLeft := left;
    ghost var s := Source(buf, cur, fp.data, fp.pos);
    var header;
    header, newCur := ReadHeader(fp, buf, cur, left, local);
    if header.Err? {
      return Err(header.error), newCur, newLeft;
    }
    var (d, nameLength, extraLength, commentLength) := header.value;
    var strings;
    strings, newCur := ReadStrings(fp, buf, newCur, nameLength, extraLength, commentLength);
    if strings.None? {
      return Err(ErRead), newCur, newLeft;
    }
    // The length test that follows in the source always passes: the name has no NUL left.
    var (name, extra, comment) := strings.value;
    d := d.(filename := name, extra := extra, comment := comment);
    var size: nat := HeaderSize(local) + nameLength + extraLength + commentLength;
    newLeft := if left.Some? then Some(left.value - size) else None;
    r := Ok(d);
  }

  method ReadStrings(fp: ByteFile, buf: Option<seq<byte>>, cur: nat,
                     nameLength: u16, extraLength: u16, commentLength: u16)
    returns (r: Option<(CString, Field, Field)>, newCur: nat)
    requires buf.Some? ==> cur + nameLength + extraLength + commentLength <= |buf.value|
    modifies fp`pos
    ensures var s := Source(buf, cur, fp.data, old(fp.pos));
      var n: nat := nameLength + extraLength + commentLength;
      if |s| < n then r.None? else
        && r == Some(StringsOf(s, nameLength, extraLength, commentLength))
        && (if buf.Some? then newCur == cur + n && fp.pos == old(fp.pos)
            else newCur == cur && fp.pos == old(fp.pos) + n)
  {
    hide Source, Spaced;
    var name, extra, comment: seq<byte>;
    name, newCur := TakeBytes(fp, buf, cur, nameLength);
    if |name| < nameLength {
      return None, newCur;
    }
    extra, newCur := TakeBytes(fp, buf, newCur, extraLength);
    if |extra| < extraLength {
      return None, newCur;
    }
    comment, newCur := TakeBytes(fp, buf, newCur, commentLength);
    if |comment| < commentLength {
      return None, newCur;
    }
    ghost var s := Source(buf, cur, fp.data, old(fp.pos));
    assert extra == s[nameLength..nameLength + extraLength];
    assert comment == s[nameLength + extraLength..nameLength + extraLength + commentLength];
    r := Some((Spaced(name), extra, comment));
  }

  /** The cursor walk over the fixed part; s is what b is the front of. */
  method ReadFixed(b: seq<byte>, local: bool, ghost s: seq<byte>)
    returns (d: Dirent, nameLength: nat, extraLength: nat, commentLength: nat)
    requires |b| == HeaderSize(local) && b <= s
    ensures d == FixedFields(s, local)
    ensures nameLength == NameLength(s, local) && extraLength == ExtraLength(s, local)
    ensures commentLength == CommentLength(s, local)
  {
    PrefixReads(b, s);
    d := InitDirent(DosTime(0, 0));
    var cur := 4;
    if !local {
      d := d.(versionMadeby := At16(b, cur));
      cur := cur + 2;
    }
    d := d.(versionNeeded := At16(b, cur), bitflags := At16(b, cur + 2), compMethod := At16(b, cur + 4));
    cur := cur + 6;
    d := d.(lastMod := DosTime(At16(b, cur), At16(b, cur + 2)));
    cur := cur + 4;
    d := d.(crc := At32(b, cur), compSize := At32(b, cur + 4), uncompSize := At32(b, cur + 8));
    cur := cur + 12;
    nameLength, extraLength := At16(b, cur), At16(b, cur + 2);
    cur := cur + 4;
    commentLength := 0;
    if !local {
      commentLength := At16(b, cur);
      d := d.(diskNumber := At16(b, cur + 2), intAttrib := At16(b, cur + 4));
      cur := cur + 6;
      d := d.(extAttrib := At32(b, cur), offset := At32(b, cur + 4));
    }
  }

  lemma PrefixReads(b: seq<byte>, s: seq<byte>)
    requires b <= s
    ensures forall o: nat {:trigger At16(b, o)} | o + 2 <= |b| :: At16(b, o) == At16(s, o)
    ensures forall o: nat {:trigger At32(b, o)} | o + 4 <= |b| :: At32(b, o) == At32(s, o)
  {
  }

  // ----- the two undo each other

  /** The entry that a written header stands for. */
  function Stored(d: Dirent, local: bool): Dirent {
    var e := d.(compMethod := Low16(d.compMethod), filename := WrittenName(d));
    if local then
      e.(versionMadeby := 0, diskNumber := 0, intAttrib := 0, extAttrib := 0, offset := 0, comment := [])
    else e
  }

  /** The shared fields are where APPNOTE.TXT puts them. */
  lemma SharedLayout(d: Dirent, s: seq<byte>, k: nat, rest: seq<byte>)
    requires k + 4 <= |s| && s[k + 4..] == SharedFields(d, rest)
    ensures |s| == k + 30 + |rest| && s[k + 30..] == rest
    ensures At16(s, k + 4) == d.versionNeeded && At16(s, k + 6) == d.bitflags && At16(s, k + 8) == Low16(d.compMethod)
    ensures At16(s, k + 10) == d.lastMod.time && At16(s, k + 12) == d.lastMod.date
    ensures At32(s, k + 14) == d.crc && At32(s, k + 18) == d.compSize && At32(s, k + 22) == d.uncompSize
    ensures At16(s, k + 26) == |WrittenName(d)| && At16(s, k + 28) == |d.extra|
  {
    var r9 := Le16(|d.extra|) + rest;
    var r8 := Le16(|WrittenName(d)|) + r9;
    var r7 := Le32(d.uncompSize) + r8;
    var r6 := Le32(d.compSize) + r7;
    var r5 := Le32(d.crc) + r6;
    var r4 := Le16(d.lastMod.date) + r5;
    var r3 := Le16(d.lastMod.time) + r4;
    var r2 := Le16(Low16(d.compMethod)) + r3;
    ReadLe16(s, k + 4, d.versionNeeded, Le16(d.bitflags) + r2);
    ReadLe16(s, k + 6, d.bitflags, r2);
    ReadLe16(s, k + 8, Low16(d.compMethod), r3);
    ReadLe16(s, k + 10, d.lastMod.time, r4);
    ReadLe16(s, k + 12, d.lastMod.date, r5);
    ReadLe32(s, k + 14, d.crc, r6);
    ReadLe32(s, k + 18, d.compSize, r7);
    ReadLe32(s, k + 22, d.uncompSize, r8);
    ReadLe16(s, k + 26, |WrittenName(d)|, r9);
    ReadLe16(s, k + 28, |d.extra|, rest);
  }

  lemma CentralLayout(d: Dirent, s: seq<byte>, rest: seq<byte>)
    requires 32 <= |s| && s[32..] == CentralFields(d, rest)
    ensures |s| == 46 + |rest| && s[46..] == rest
    ensures At16(s, 32) == |d.comment| && At16(s, 34) == d.diskNumber && At16(s, 36) == d.intAttrib
    ensures At32(s, 38) == d.extAttrib && At32(s, 42) == d.offset
  {
    var r4 := Le32(d.offset) + rest;
    var r3 := Le32(d.extAttrib) + r4;
    var r2 := Le16(d.intAttrib) + r3;
    ReadLe16(s, 32, |d.comment|, Le16(d.diskNumber) + r2);
    ReadLe16(s, 34, d.diskNumber, r2);
    ReadLe16(s, 36, d.intAttrib, r3);
    ReadLe32(s, 38, d.extAttrib, r4);
    ReadLe32(s, 42, d.offset, rest);
  }

  /** Every written header reads back as the entry it stands for, and takes exactly its own bytes, whatever follows. */
  lemma {:induction false} HeaderRoundTrip(d: Dirent, local: bool, more: seq<byte>, left: Option<nat>)
    requires left.Some? ==> left.value >= |HeaderBytes(d, local)|
    ensures ParseDirent(HeaderBytes(d, local) + more, left, local) == Ok((Stored(d, local), |HeaderBytes(d, local)|))
  {
    hide HeaderBytes, FixedFields, At16, At32;
    var s := HeaderBytes(d, local) + more;
    var comment := if local then [] else d.comment;
    if local {
      LocalLayout(d, s, more);
    } else {
      CentralHeaderLayout(d, s, more);
    }
    StringsBack(s[HeaderSize(local)..], WrittenName(d), d.extra, comment, more);
  }

  /** The fixed fields of s are those of d. */
  ghost predicate LaidOut(d: Dirent, s: seq<byte>, local: bool)
    requires |s| >= HeaderSize(local)
  {
    && FixedFields(s, local) == Stored(d, local).(filename := [], extra := [], comment := [])
    && NameLength(s, local) == |WrittenName(d)| && ExtraLength(s, local) == |d.extra|
    && CommentLength(s, local) == (if local then 0 else |d.comment|)
  }

  lemma LocalLayout(d: Dirent, s: seq<byte>, more: seq<byte>)
    requires s == HeaderBytes(d, true) + more
    ensures |s| >= 30 && s[..4] == LOCAL_MAGIC && LaidOut(d, s, true)
    ensures s[30..] == WrittenName(d) + (d.extra + ([] + more))
  {
    hide SharedFields, WrittenName, LaidOut;
    var strings := WrittenName(d) + (d.extra + ([] + more));
    SharedAppend(d, WrittenName(d) + d.extra, more);
    assert WrittenName(d) + d.extra + more == strings;
    assert s == LOCAL_MAGIC + SharedFields(d, strings);
    LocalFields(d, s, strings);
  }

  lemma LocalFields(d: Dirent, s: seq<byte>, strings: seq<byte>)
    requires 4 <= |s| && s[4..] == SharedFields(d, strings)
    ensures |s| >= 30 && LaidOut(d, s, true) && s[30..] == strings
  {
    hide SharedFields, WrittenName, At16, At32;
    SharedLayout(d, s, 0, strings);
  }

  lemma CentralHeaderLayout(d: Dirent, s: seq<byte>, more: seq<byte>)
    requires s == HeaderBytes(d, false) + more
    ensures |s| >= 46 && s[..4] == CENTRAL_MAGIC && LaidOut(d, s, false)
    ensures s[46..] == WrittenName(d) + (d.extra + (d.comment + more))
  {
    hide HeaderBytes, SharedFields, CentralFields, WrittenName, LaidOut, Le16;
    var strings := WrittenName(d) + (d.extra + (d.comment + more));
    CentralHeaderStart(d, more);
    CentralHeaderFields(d, s, strings);
  }

  lemma CentralHeaderStart(d: Dirent, more: seq<byte>)
    ensures var strings := WrittenName(d) + (d.extra + (d.comment + more));
      HeaderBytes(d, false) + more
      == CENTRAL_MAGIC + (Le16(d.versionMadeby) + SharedFields(d, CentralFields(d, strings)))
  {
    hide SharedFields, CentralFields, WrittenName, Le16;
    var inner := WrittenName(d) + (d.extra + d.comment);
    CentralAppend(d, inner, more);
    SharedAppend(d, CentralFields(d, inner), more);
    assert inner + more == WrittenName(d) + (d.extra + (d.comment + more));
  }

  lemma CentralHeaderFields(d: Dirent, s: seq<byte>, strings: seq<byte>)
    requires 4 <= |s| && s[4..] == Le16(d.versionMadeby) + SharedFields(d, CentralFields(d, strings))
    ensures |s| >= 46 && LaidOut(d, s, false) && s[46..] == strings
  {
    hide SharedFields, CentralFields, WrittenName, At16, At32, Le16;
    ReadLe16(s, 4, d.versionMadeby, SharedFields(d, CentralFields(d, strings)));
    assert s[6..] == s[4..][2..];
    SharedLayout(d, s, 2, CentralFields(d, strings));
    CentralLayout(d, s, strings);
  }

  lemma SharedAppend(d: Dirent, rest: seq<byte>, more: seq<byte>)
    ensures SharedFields(d, rest) + more == SharedFields(d, rest + more)
  {
    var s := SharedFields(d, rest);
    var t := SharedFields(d, rest + more);
    SharedLayoutSplit(d, rest);
    SharedLayoutSplit(d, rest + more);
    assert s + more == t[..26] + (rest + more);
  }

  /** The shared fields come before, and do not depend on, what follows them. */
  lemma SharedLayoutSplit(d: Dirent, rest: seq<byte>)
    ensures SharedFields(d, rest) == SharedFields(d, []) + rest
  {
  }

  lemma CentralAppend(d: Dirent, rest: seq<byte>, more: seq<byte>)
    ensures CentralFields(d, rest) + more == CentralFields(d, rest + more)
  {
  }

  lemma StringsBack(t: seq<byte>, name: CString, extra: Field, comment: Field, more: seq<byte>)
    requires t == name + (extra + (comment + more)) && |name| < 0x1_0000
    ensures StringsOf(t, |name|, |extra|, |comment|) == (name, extra, comment)
  {
    assert t[..|name|] == name && t[|name|..|name| + |extra|] == extra;
    assert t[|name| + |extra|..|name| + |extra| + |comment|] == comment;
  }

  /** A central header keeps its entry exactly when the method and the name length fit their 16 bits. */
  predicate Fits(d: Dirent) {
    0 <= d.compMethod < 0x1_0000 && |d.filename| < 0x1_0000
  }

  lemma StoredExactly(d: Dirent)
    ensures Stored(d, false) == d <==> Fits(d)
  {
    if |d.filename| >= 0x1_0000 {
      assert |Stored(d, false).filename| < |d.filename|;
    }
  }
}
