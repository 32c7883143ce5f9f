/** The central directory and its end record (section 4.3.16 of APPNOTE.TXT): writing, reading, and why the one
    undoes the other. */
module Cdirs {
  import opened Bytes
  import opened ByteFiles
  import opened Dirents

  const EOCD_MAGIC: seq<byte> := [0x50, 0x4B, 5, 6]
  const EOCDLEN := 22
  const ZIP_UINT16_MAX := 65535

  /** The contents of a `struct zip_cdir`. */
  datatype Cdir = Cdir(entries: seq<Dirent>, size: u32, offset: u32, comment: Field)

  // ----- writing

  function DirectoryBytes(entries: seq<Dirent>): seq<byte> {
    if entries == [] then [] else HeaderBytes(entries[0], false) + DirectoryBytes(entries[1..])
  }

  lemma {:induction false} DirectoryBytesLast(entries: seq<Dirent>, d: Dirent)
    ensures DirectoryBytes(entries + [d]) == DirectoryBytes(entries) + HeaderBytes(d, false)
  {
    if entries == [] {
      assert DirectoryBytes([d]) == HeaderBytes(d, false) + [];
    } else {
      assert (entries + [d])[1..] == entries[1..] + [d];
      DirectoryBytesLast(entries[1..], d);
    }
  }

  /** The end record; the entry count keeps its low 16 bits. */
  function EocdBytes(count: nat, size: u32, offset: u32, comment: Field): (s: seq<byte>)
    ensures |s| == EOCDLEN + |comment|
  {
    EOCD_MAGIC + (Le32(0) + (Le16(Low16(count)) + (Le16(Low16(count))
      + (Le32(size) + (Le32(offset) + (Le16(|comment|) + comment))))))
  }

  lemma WrappedDifference(start: nat, n: nat)
    ensures Low32(start + n - Low32(start)) == Low32(n)
  {
    var k := start / 0x1_0000_0000;
    assert start + n - Low32(start) == n + k * 0x1_0000_0000;
  }

  /** `struct zip_cdir` as the writer and the reader update it in place. `entry` holds the entries filled in so
      far, `nentry` the number there is room for. */
  class CentralDirectory {
    var entry: seq<Dirent>
    var nentry: nat
    var size: u32
    var offset: u32
    var comment: Field

    /** `_zip_cdir_new` */
    constructor (room: nat)
      ensures entry == [] && nentry == room && size == 0 && offset == 0 && comment == []
    {
      entry, nentry, size, offset, comment := [], room, 0, 0, [];
    }

    ghost function Value(): Cdir
      reads this
    {
      Cdir(entry, size, offset, comment)
    }

    /** `_zip_cdir_grow` */
    method Grow(room: nat) returns (ok: bool)
      modifies this`nentry
      ensures ok == (room >= old(nentry))
      ensures nentry == if ok then room else old(nentry)
    {
      if room < nentry {
        return false;
      }
      nentry := room;
      ok := true;
    }

    /** `_zip_cdir_write`: the directory goes to the file position, and the end record behind it. */
    method Write(fp: ByteFile)
      requires fp.pos <= |fp.data| && nentry == |entry|
      modifies this`size, this`offset, fp
      ensures offset == Low32(old(fp.pos)) && size == Low32(|DirectoryBytes(entry)|)
      ensures var bytes := DirectoryBytes(entry) + EocdBytes(|entry|, size, offset, comment);
        fp.data == Overwrite(old(fp.data), old(fp.pos), bytes) && fp.pos == old(fp.pos) + |bytes|
    {
      offset := Low32(fp.pos);
      ghost var before, start, dir := fp.data, fp.pos, DirectoryBytes(entry);
      WriteEntries(fp);
      WrappedDifference(start, |dir|);
      size := Low32(fp.pos - offset);
      WriteEocd(fp);
      OverwriteJoins(before, start, dir, EocdBytes(nentry, size, offset, comment));
    }

    method WriteEntries(fp: ByteFile)
      requires fp.pos <= |fp.data|
      modifies fp
      ensures fp.data == Overwrite(old(fp.data), old(fp.pos), DirectoryBytes(entry))
      ensures fp.pos == old(fp.pos) + |DirectoryBytes(entry)|
    {
      hide DirectoryBytes, HeaderBytes, Overwrite;
      ghost var before, start := fp.data, fp.pos;
      OverwriteNothing(before, start);
      NoDirectory();
      for i := 0 to |entry|
        invariant fp.pos == start + |DirectoryBytes(entry[..i])|
        invariant fp.data == Overwrite(before, start, DirectoryBytes(entry[..i]))
      {
        WriteDirent(entry[i], fp, false);
        assert entry[..i + 1] == entry[..i] + [entry[i]];
        DirectoryBytesLast(entry[..i], entry[i]);
        OverwriteJoins(before, start, DirectoryBytes(entry[..i]), HeaderBytes(entry[i], false));
      }
      assert entry[..|entry|] == entry;
    }

    lemma NoDirectory()
      ensures DirectoryBytes([]) == [] && entry[..0] == []
    {
    }

    method WriteEocd(fp: ByteFile)
      requires fp.pos <= |fp.data|
      modifies fp
      ensures var bytes := EocdBytes(nentry, size, offset, comment);
        fp.data == Overwrite(old(fp.data), old(fp.pos), bytes) && fp.pos == old(fp.pos) + |bytes|
    {
      ghost var r6 := Le16(|comment|) + comment;
      ghost var r5 := Le32(offset) + r6;
      ghost var r4 := Le32(size) + r5;
      ghost var r3 := Le16(Low16(nentry)) + r4;
      ghost var r2 := Le16(Low16(nentry)) + r3;
      ghost var total := EocdBytes(nentry, size, offset, comment);
      ghost var m := Mark(fp.data, fp.pos, total, total);
      OverwriteNothing(fp.data, fp.pos);
      assert total[..0] == [] && total[0..] == total;
      m := fp.Put(EOCD_MAGIC, m, Le32(0) + r2);
      m := fp.Put(Le32(0), m, r2);
      m := fp.Put(Le16(Low16(nentry)), m, r3);
      m := fp.Put(Le16(Low16(nentry)), m, r4);
      m := fp.Put(Le32(size), m, r5);
      m := fp.Put(Le32(offset), m, r6);
      m := fp.Put(Le16(|comment|), m, comment);
      assert comment == comment + [];
      m := fp.Put(comment, m, []);
      assert m.Written() == total;
    }
  }

  // ----- reading

  /** The room for entries after i of them have been read. */
  function Room(i: nat, nentry: nat, left: nat): nat {
    if i == nentry && left > 0 then nentry + ZIP_UINT16_MAX else nentry
  }

  /** The entries found in the `left` bytes at the front of s, from entry i on, with room for `nentry`: when the
      room is used up and bytes are left, the room grows (more than 65535 entries, whose count wrapped). */
  function ReadEntries(s: seq<byte>, left: nat, i: nat, nentry: nat): Result<seq<Dirent>, ZipError>
    decreases left
  {
    if i < nentry && left > 0 then
      match ParseDirent(s, Some(left), false)
      case Err(e) => Err(e)
      case Ok((d, n)) =>
        match ReadEntries(s[n..], left - n, i + 1, Room(i + 1, nentry, left - n))
        case Err(e) => Err(e)
        case Ok(rest) => Ok([d] + rest)
    else Ok([])
  }

  /** The numbers of an end record: entry count, directory size and offset, archive comment. */
  datatype EndRecord = EndRecord(count: u16, size: u32, offset: u32, comment: Field)

  /** Reading the directory that the end record t announces keeps inside the tail of the file that starts at
      bufOffset: if it starts there, the 32-bit sum of its offset and size did not wrap. */
  predicate KeepsInside(t: seq<byte>, bufOffset: nat) {
    |t| >= EOCDLEN && At32(t, 16) >= bufOffset ==> At32(t, 12) + At32(t, 16) < 0x1_0000_0000
  }

  /** The end record at the front of t, which starts at byte e of the file. */
  function ParseEnd(t: seq<byte>, e: nat, checkCons: bool): (r: Result<EndRecord, ZipError>)
    ensures forall b: nat | r.Ok? && KeepsInside(t, b) && r.value.offset >= b :: r.value.offset + r.value.size <= e
  {
    if |t| < EOCDLEN then Err(ErNoZip)
    else if t[..4] != EOCD_MAGIC then Err(ErNoZip)
    else if t[4..8] != [0, 0, 0, 0] then Err(ErMultiDisk)
    else if Low32(At32(t, 16) + At32(t, 12)) > e then Err(ErIncons)
    else if |t| - EOCDLEN < At16(t, 20) || At16(t, 8) != At16(t, 10) then Err(ErNoZip)
    else if checkCons && |t| - EOCDLEN != At16(t, 20) then Err(ErIncons)
    else Ok(EndRecord(At16(t, 10), At32(t, 12), At32(t, 16), t[EOCDLEN..EOCDLEN + At16(t, 20)]))
  }

  /** In a file below 4 GB, that is exactly what an accepted end record needs so that a directory in the tail ends
      before the file does. */
  lemma KeepsInsideIff(data: seq<byte>, e: nat, bufOffset: nat, checkCons: bool)
    requires e <= |data| < 0x1_0000_0000 && ParseEnd(data[e..], e, checkCons).Ok?
    ensures var end := ParseEnd(data[e..], e, checkCons).value;
      KeepsInside(data[e..], bufOffset) <==> (end.offset >= bufOffset ==> end.offset + end.size <= |data|)
  {
    hide At16;
  }

  /** What `_zip_readcdir` finds at an end record that starts at byte e of the file. */
  function ReadCdirAt(data: seq<byte>, e: nat, checkCons: bool): Result<Cdir, ZipError> {
    match ParseEnd(Ahead(data, e), e, checkCons)
    case Err(err) => Err(err)
    case Ok(end) =>
      match ReadEntries(Ahead(data, end.offset), end.size, 0, end.count)
      case Err(err) => Err(err)
      case Ok(entries) => Ok(Cdir(entries, end.size, end.offset, end.comment))
  }

  /** `_zip_readcdir`: `buf` is the tail of the file from `bufOffset`, and may hold the directory or not. Either
      way the result depends only on the file. */
  method ReadCdir(fp: ByteFile, bufOffset: nat, buf: seq<byte>, eocd: nat, checkCons: bool)
    returns (cd: CentralDirectory?, error: Option<ZipError>)
    requires bufOffset <= |fp.data| && buf == fp.data[bufOffset..]
    requires eocd <= |buf| && KeepsInside(buf[eocd..], bufOffset)
    modifies fp`pos
    ensures match ReadCdirAt(fp.data, bufOffset + eocd, checkCons)
            case Err(e) => cd == null && error == Some(e)
            case Ok(v) => cd != null && fresh(cd) && cd.Value() == v && cd.nentry == |v.entries| && error == None
  {
    hide ReadEntries, ParseEnd;
    assert buf[eocd..] == Ahead(fp.data, bufOffset + eocd);
    var end := ReadEnd(bufOffset, buf, eocd, checkCons);
    if end.Err? {
      return null, Some(end.error);
    }
    var dir := new CentralDirectory(end.value.count);
    dir.size, dir.offset, dir.comment := end.value.size, end.value.offset, end.value.comment;
    if dir.offset >= bufOffset {
      assert Ahead(buf, dir.offset - bufOffset) == Ahead(fp.data, dir.offset);
      error := ReadAll(fp, Some(buf), dir.offset - bufOffset, dir);
    } else {
      fp.Seek(dir.offset);
      error := ReadAll(fp, None, 0, dir);
    }
    cd := if error == None then dir else null;
  }

  /** The first half of `_zip_readcdir`: the end record at buf[eocd..], checked. */
  method ReadEnd(bufOffset: nat, buf: seq<byte>, eocd: nat, checkCons: bool) returns (r: Result<EndRecord, ZipError>)
    requires eocd <= |buf|
    ensures r == ParseEnd(buf[eocd..], bufOffset + eocd, checkCons)
    ensures r.Ok? ==> |buf| - eocd >= EOCDLEN
  {
    var comlen := |buf| - eocd - EOCDLEN;
    if comlen < 0 {
      return Err(ErNoZip);
    }
    ghost var t := buf[eocd..];
    assert t[..4] == buf[eocd..eocd + 4] && t[4..8] == buf[eocd + 4..eocd + 8];
    if buf[eocd..eocd + 4] != EOCD_MAGIC {
      return Err(ErNoZip);
    }
    if buf[eocd + 4..eocd + 8] != [0, 0, 0, 0] {
      return Err(ErMultiDisk);
    }
    SameReads(buf, eocd);
    var cur := eocd + 8;
    var here, nentry := At16(buf, cur), At16(buf, cur + 2);
    cur := cur + 4;
    var size: nat, offset: nat, commentLength: nat := At32(buf, cur), At32(buf, cur + 4), At16(buf, cur + 8);
    if Low32(offset + size) > bufOffset + eocd {
      return Err(ErIncons);
    }
    if comlen < commentLength || nentry != here {
      return Err(ErNoZip);
    }
    if checkCons && comlen != commentLength {
      return Err(ErIncons);
    }
    r := Ok(EndRecord(nentry, size, offset, buf[eocd + EOCDLEN..eocd + EOCDLEN + commentLength]));
    assert r.value.comment == t[EOCDLEN..EOCDLEN + commentLength];
  }

  lemma SameReads(buf: seq<byte>, at: nat)
    requires at <= |buf|
    ensures forall o: nat {:trigger At16(buf[at..], o)} | at + o + 2 <= |buf| :: At16(buf[at..], o) == At16(buf, at + o)
    ensures forall o: nat {:trigger At32(buf[at..], o)} | at + o + 4 <= |buf| :: At32(buf[at..], o) == At32(buf, at + o)
  {
  }

  /** The entry loop of `_zip_readcdir`. */
  method ReadAll(fp: ByteFile, buf: Option<seq<byte>>, start: nat, dir: CentralDirectory)
    returns (error: Option<ZipError>)
    requires buf.Some? ==> start + dir.size <= |buf.value|
    requires dir.entry == []
    modifies fp`pos, dir`entry, dir`nentry
    ensures var all := ReadEntries(Source(buf, start, fp.data, old(fp.pos)), dir.size, 0, old(dir.nentry));
      if all.Err? then error == Some(all.error)
      else error == None && dir.entry == all.value && dir.nentry == |all.value|
  {
    hide ParseDirent, ReadEntries;
    ghost var all := ReadEntries(Source(buf, start, fp.data, fp.pos), dir.size, 0, dir.nentry);
    var left: nat, i: nat, cur: nat := dir.size, 0, start;
    while i < dir.nentry && left > 0
      invariant i == |dir.entry|
      invariant buf.Some? ==> cur + left <= |buf.value|
      invariant all == After(dir.entry, ReadEntries(Source(buf, cur, fp.data, fp.pos), left, i, dir.nentry))
      decreases left
    {
      ghost var s := Source(buf, cur, fp.data, fp.pos);
      ReadEntriesStep(s, left, i, dir.nentry, dir.entry);
      var r, newLeft;
      r, cur, newLeft := ReadDirent(fp, buf, cur, Some(left), false);
      if r.Err? {
        return Some(r.error);
      }
      assert Source(buf, cur, fp.data, fp.pos) == s[left - newLeft.value..];
      left := newLeft.value;
      dir.entry := dir.entry + [r.value];
      i := i + 1;
      if i == dir.nentry && left > 0 {
        var grown := dir.Grow(dir.nentry + ZIP_UINT16_MAX);
      }
    }
    ReadEntriesEnd(Source(buf, cur, fp.data, fp.pos), left, i, dir.nentry);
    dir.nentry := i;
    error := None;
  }

  /** Entries already read, followed by the outcome for the rest. */
  function After(done: seq<Dirent>, r: Result<seq<Dirent>, ZipError>): (all: Result<seq<Dirent>, ZipError>)
    ensures done == [] ==> all == r
    ensures r == Ok([]) ==> all == Ok(done)
  {
    if r.Ok? then
      assert done == [] ==> done + r.value == r.value;
      assert r.value == [] ==> done + r.value == done;
      Ok(done + r.value)
    else r
  }

  lemma ReadEntriesEnd(s: seq<byte>, left: nat, i: nat, nentry: nat)
    requires !(i < nentry && left > 0)
    ensures ReadEntries(s, left, i, nentry) == Ok([])
  {
  }

  lemma ReadEntriesStep(s: seq<byte>, left: nat, i: nat, nentry: nat, done: seq<Dirent>)
    requires i < nentry && left > 0
    ensures match ParseDirent(s, Some(left), false)
            case Err(e) => After(done, ReadEntries(s, left, i, nentry)) == Err(e)
            case Ok((d, n)) =>
              var rest := ReadEntries(s[n..], left - n, i + 1, Room(i + 1, nentry, left - n));
              After(done, ReadEntries(s, left, i, nentry)) == After(done + [d], rest)
  {
    var p := ParseDirent(s, Some(left), false);
    if p.Ok? {
      var (d, n) := p.value;
      var rest := ReadEntries(s[n..], left - n, i + 1, Room(i + 1, nentry, left - n));
      if rest.Ok? {
        assert done + ([d] + rest.value) == done + [d] + rest.value;
      }
    }
  }

  // ----- the two undo each other

  /** The entries that written headers stand for. */
  function StoredAll(entries: seq<Dirent>): (r: seq<Dirent>)
    ensures |r| == |entries|
  {
    seq(|entries|, i requires 0 <= i < |entries| => Stored(entries[i], false))
  }

  lemma {:induction false} StoredAllExactly(entries: seq<Dirent>)
    ensures StoredAll(entries) == entries <==> forall d <- entries :: Fits(d)
  {
    forall i | 0 <= i < |entries|
      ensures StoredAll(entries)[i] == entries[i] <==> Fits(entries[i])
    {
      StoredExactly(entries[i]);
    }
  }

  /** The entry loop gets every entry back and stops at the end of the directory, whatever room it starts with, as
      long as that is room for one. */
  lemma {:induction false} EntriesRoundTrip(entries: seq<Dirent>, more: seq<byte>, i: nat, nentry: nat)
    requires entries == [] || i < nentry
    ensures ReadEntries(DirectoryBytes(entries) + more, |DirectoryBytes(entries)|, i, nentry) == Ok(StoredAll(entries))
    decreases |entries|
  {
    hide ParseDirent, HeaderBytes;
    var s := DirectoryBytes(entries) + more;
    var left := |DirectoryBytes(entries)|;
    if entries != [] {
      var head, tail := HeaderBytes(entries[0], false), DirectoryBytes(entries[1..]);
      assert s == head + (tail + more);
      HeaderRoundTrip(entries[0], false, tail + more, Some(left));
      assert s[|head|..] == tail + more;
      if |entries| > 1 {
        assert |tail| > 0;
      }
      EntriesRoundTrip(entries[1..], more, i + 1, Room(i + 1, nentry, |tail|));
      assert StoredAll(entries) == [Stored(entries[0], false)] + StoredAll(entries[1..]);
    } else {
      assert StoredAll(entries) == [];
    }
  }

  /** The count in the end record is 0 for a non-empty directory exactly when it wrapped all the way. */
  predicate CountReadable(n: nat) {
    n == 0 || n % 0x1_0000 != 0
  }

  /** A saved directory is read back exactly when its entry count is 0 or no multiple of 65536, for every
      directory and comment below 4 GB; a count that wrapped to 0 loses all entries. */
  lemma {:induction false} CdirRoundTrip(before: seq<byte>, entries: seq<Dirent>, comment: Field, checkCons: bool)
    requires |before| + |DirectoryBytes(entries)| < 0x1_0000_0000
    ensures var dir := DirectoryBytes(entries);
      var data := before + dir + EocdBytes(|entries|, |dir|, |before|, comment);
      ReadCdirAt(data, |before| + |dir|, checkCons)
        == Ok(Cdir(if CountReadable(|entries|) then StoredAll(entries) else [], |dir|, |before|, comment))
  {
    hide DirectoryBytes, EocdBytes, ReadEntries, ParseEnd, StoredAll;
    var dir := DirectoryBytes(entries);
    var end := EocdBytes(|entries|, |dir|, |before|, comment);
    var data := before + dir + end;
    assert data[|before| + |dir|..] == end;
    EndRoundTrip(|entries|, |dir|, |before|, comment, |before| + |dir|, checkCons);
    assert data[|before|..] == dir + end;
    if CountReadable(|entries|) {
      EntriesRoundTrip(entries, end, 0, Low16(|entries|));
    } else {
      ReadEntriesEnd(dir + end, |dir|, 0, Low16(|entries|));
    }
  }

  lemma NoDisks()
    ensures Le32(0) == [0, 0, 0, 0]
  {
  }

  lemma EndRoundTrip(count: nat, size: u32, offset: u32, comment: Field, e: nat, checkCons: bool)
    requires Low32(offset + size) <= e
    ensures ParseEnd(EocdBytes(count, size, offset, comment), e, checkCons)
      == Ok(EndRecord(Low16(count), size, offset, comment))
  {
    hide At16, At32, Le16, Le32;
    var t := EocdBytes(count, size, offset, comment);
    var r6 := Le16(|comment|) + comment;
    var r5 := Le32(offset) + r6;
    var r4 := Le32(size) + r5;
    var r3 := Le16(Low16(count)) + r4;
    NoDisks();
    assert t[8..] == Le16(Low16(count)) + r3;
    assert t[..4] == EOCD_MAGIC && t[4..8] == [0, 0, 0, 0];
    ReadLe16(t, 8, Low16(count), r3);
    ReadLe16(t, 10, Low16(count), r4);
    ReadLe32(t, 12, size, r5);
    ReadLe32(t, 16, offset, r6);
    ReadLe16(t, 20, |comment|, comment);
    assert t[EOCDLEN..EOCDLEN + |comment|] == t[EOCDLEN..] == comment;
  }

  /** An end record that is accepted although its directory of 4 GB cannot be in a file that holds it. */
  lemma WrappedSumAccepted()
    ensures ParseEnd(EocdBytes(1, 0xFFFF_FFFF, 1, []), 0, true).Ok?
    ensures !KeepsInside(EocdBytes(1, 0xFFFF_FFFF, 1, []), 0)
  {
    EndRoundTrip(1, 0xFFFF_FFFF, 1, [], 0, true);
    var t, r6 := EocdBytes(1, 0xFFFF_FFFF, 1, []), Le16(0) + [];
    ReadLe32(t, 12, 0xFFFF_FFFF, Le32(1) + r6);
    ReadLe32(t, 16, 1, r6);
  }

  /** The same as an equivalence on what the caller can see: every entry comes back field by field if and only if
      each fits its 16-bit fields and the count is readable. */
  lemma {:induction false} CdirRoundTripIff(before: seq<byte>, entries: seq<Dirent>, comment: Field, checkCons: bool)
    requires |before| + |DirectoryBytes(entries)| < 0x1_0000_0000
    ensures var dir := DirectoryBytes(entries);
      var data := before + dir + EocdBytes(|entries|, |dir|, |before|, comment);
      ReadCdirAt(data, |before| + |dir|, checkCons) == Ok(Cdir(entries, |dir|, |before|, comment))
      <==> CountReadable(|entries|) && forall d <- entries :: Fits(d)
  {
    CdirRoundTrip(before, entries, comment, checkCons);
    StoredAllExactly(entries);
  }

  lemma {:induction false} DirectorySize(d: Dirent, n: nat)
    ensures |DirectoryBytes(seq(n, _ => d))| == n * |HeaderBytes(d, false)|
  {
    hide HeaderBytes;
    if n > 0 {
      var all, rest := seq(n, _ => d), seq(n - 1, _ => d);
      assert all[0] == d && all[1..] == rest;
      DirectorySize(d, n - 1);
      OneMoreTime(n, |HeaderBytes(d, false)|);
    }
  }

  lemma OneMoreTime(n: nat, h: nat)
    requires n > 0
    ensures n * h == h + (n - 1) * h
  {
  }

  /** 65536 entries that all fit, none of which is read back. */
  lemma AllEntriesLost() returns (entries: seq<Dirent>)
    ensures |entries| == 65536 && (forall d <- entries :: Fits(d)) && |DirectoryBytes(entries)| < 0x1_0000_0000
    ensures var dir := DirectoryBytes(entries);
      ReadCdirAt(dir + EocdBytes(|entries|, |dir|, 0, []), |dir|, false) == Ok(Cdir([], |dir|, 0, []))
  {
    hide DirectoryBytes, EocdBytes, HeaderBytes, ReadCdirAt;
    var d := InitDirent(DosTime(0, 0));
    entries := seq(65536, _ => d);
    DirectorySize(d, 65536);
    var dir := DirectoryBytes(entries);
    assert |HeaderBytes(d, false)| == 46;
    CdirRoundTrip([], entries, [], false);
    assert [] + dir + EocdBytes(|entries|, |dir|, 0, []) == dir + EocdBytes(|entries|, |dir|, 0, []);
  }
}
