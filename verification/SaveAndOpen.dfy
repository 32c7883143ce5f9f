/** Closing an archive and opening the result: the directory that opening finds is the one that was saved, and it
    passes the library's own consistency check. */
module SaveAndOpen {
  import opened Bytes
  import opened ByteFiles
  import opened Dirents
  import opened Cdirs
  import opened Encodings
  import opened ArchiveModel
  import opened SaveModel
  import opened Reopening
  import opened FindCdir

  /** The headers of an entry that is copied agreed in the old archive. */
  predicate AgreedBefore(a: Arch, orig: seq<byte>, j: nat)
    requires j < |a.entries|
  {
    !NewData(a.entries[j]) && Original(a, j).Some? ==>
      match ParseDirent(Ahead(orig, Original(a, j).value.offset), None, true)
      case Err(_) => false
      case Ok((local, _)) => HeadersAgree(Original(a, j).value, local)
  }

  lemma OtherFlagKept(flags: u16, name: seq<byte>, comment: seq<byte>)
    ensures HasBit(EncodingFlags(flags, name, comment), DATA_DESCRIPTOR) == HasBit(flags, DATA_DESCRIPTOR)
  {
    hide Guess;
    BitsApart(flags);
  }

  lemma BitsApart(flags: u16)
    ensures HasBit(ClearBit(flags, ENCODING_UTF_8), DATA_DESCRIPTOR) == HasBit(flags, DATA_DESCRIPTOR)
    ensures HasBit(SetBit(flags, ENCODING_UTF_8), DATA_DESCRIPTOR) == HasBit(flags, DATA_DESCRIPTOR)
    ensures !HasBit(ClearBit(flags, DATA_DESCRIPTOR), DATA_DESCRIPTOR)
  {
    assert flags >= 2048 ==> (flags - 2048) / 8 == flags / 8 - 256;
    assert (flags + 2048) / 8 == flags / 8 + 256;
  }

  /** Saved headers agree, field by field, and announce no data descriptor. */
  lemma SavedHeadersAgree(a: Arch, orig: seq<byte>, w: World, j: nat)
    requires j < |a.entries| && Savable(a) && a.entries[j].state != State.Deleted
    requires AgreedBefore(a, orig, j) && SaveEntry(a, orig, w, j).Ok?
    requires Fits(SaveEntry(a, orig, w, j).value.0)
    ensures var (c, r) := SaveEntry(a, orig, w, j).value;
      HeadersAgree(c, Stored(r.header, true)) && r.header.filename == c.filename
  {
    hide Guess, HasBit, ClearBit, ParseDirent, Produced, EncodingFlags;
    var e := a.entries[j];
    if NewData(e) {
      var (l, c) := FreshHeaders(e, Original(a, j), w);
      OtherFlagKept(0, l.filename, c.comment);
      assert !HasBit(0, DATA_DESCRIPTOR) by {
        NoFlags();
      }
    } else {
      var was := Original(a, j).value;
      var local := ParseDirent(Ahead(orig, was.offset), None, true).value.0;
      var (l, c) := CopiedHeaders(e, was, local);
      var flags :=
        if HasBit(local.bitflags, DATA_DESCRIPTOR) then ClearBit(local.bitflags, DATA_DESCRIPTOR) else local.bitflags;
      BitsApart(local.bitflags);
      OtherFlagKept(flags, l.filename, c.comment);
    }
  }

  lemma NoFlags()
    ensures !HasBit(0, DATA_DESCRIPTOR)
  {
  }

  /** Entry d of cd lies before the directory and matches its local header. */
  predicate EntryGood(data: seq<byte>, cd: Cdir, d: Dirent) {
    && d.offset <= EndOf(d) <= cd.offset
    && match ParseDirent(Ahead(data, d.offset), None, true)
       case Err(_) => false
       case Ok((local, _)) => HeadersAgree(d, local)
  }

  lemma {:induction false} GoodEntriesPass(data: seq<byte>, cd: Cdir, i: nat, min: u32, max: u32)
    requires i <= |cd.entries| && min <= max <= cd.offset < 0x8000_0000
    requires forall j | i <= j < |cd.entries| :: EntryGood(data, cd, cd.entries[j])
    ensures CheckFrom(data, cd, i, min, max) >= 0
    decreases |cd.entries| - i
  {
    hide ParseDirent, HeadersAgree, EndOf;
    if i < |cd.entries| {
      var d := cd.entries[i];
      assert EntryGood(data, cd, d);
      GoodEntriesPass(data, cd, i + 1, Min(d.offset, min), Max(EndOf(d), max));
    }
  }

  /** Saving keeps a consistent archive consistent: if the headers of every copied entry agreed before, the new
      archive passes the check that opening with ZIP_CHECKCONS makes (below 2 GB, where its result is not negative). */
  lemma {:induction false} SavedConsistent(a: Arch, orig: seq<byte>, w: World, n: nat, comment: Field)
    requires n <= |a.entries| && Savable(a) && forall i | 0 <= i < n :: a.entries[i].state != State.Deleted
    requires SaveEntries(a, orig, w, n).Ok?
    requires |Tiles(SaveEntries(a, orig, w, n).value.1)| < 0x8000_0000
    requires forall i | 0 <= i < n :: AgreedBefore(a, orig, i) && Fits(SaveEntries(a, orig, w, n).value.0[i])
    ensures var (cs, rs) := SaveEntries(a, orig, w, n).value;
      CheckCons(ArchiveBytes(cs, rs, comment), Cdir(cs, Low32(|DirectoryBytes(cs)|), |Tiles(rs)|, comment)) >= 0
  {
    hide SaveEntries, ArchiveBytes, DirectoryBytes, EntryGood, Fits, AgreedBefore, CheckFrom;
    var (cs, rs) := SaveEntries(a, orig, w, n).value;
    var data := ArchiveBytes(cs, rs, comment);
    var cd := Cdir(cs, Low32(|DirectoryBytes(cs)|), |Tiles(rs)|, comment);
    forall j | 0 <= j < n
      ensures EntryGood(data, cd, cs[j])
    {
      SavedEntryGood(a, orig, w, n, comment, j);
    }
    var first := if cs == [] then 0 else cs[0].offset;
    assert first <= cd.offset by {
      if n > 0 {
        EntryPlaced(a, orig, w, n, 0);
      }
    }
    GoodEntriesPass(data, cd, 0, first, first);
  }

  lemma {:induction false} SavedEntryGood(a: Arch, orig: seq<byte>, w: World, n: nat, comment: Field, j: nat)
    requires j < n <= |a.entries| && Savable(a) && forall i | 0 <= i < n :: a.entries[i].state != State.Deleted
    requires SaveEntries(a, orig, w, n).Ok?
    requires |Tiles(SaveEntries(a, orig, w, n).value.1)| < 0x8000_0000
    requires AgreedBefore(a, orig, j) && Fits(SaveEntries(a, orig, w, n).value.0[j])
    ensures var (cs, rs) := SaveEntries(a, orig, w, n).value;
      EntryGood(ArchiveBytes(cs, rs, comment), Cdir(cs, Low32(|DirectoryBytes(cs)|), |Tiles(rs)|, comment), cs[j])
  {
    hide SaveEntries, DirectoryBytes, EocdBytes, AgreedBefore, HeadersAgree, ParseDirent, SaveEntry, ArchiveBytes;
    hide HeaderBytes, Tiles, RecordBytes, Stored, Fits, EndOf, DataOffset;
    var (cs, rs) := SaveEntries(a, orig, w, n).value;
    var data := ArchiveBytes(cs, rs, comment);
    SavedEntry(a, orig, w, n, j);
    FitsAnywhere(SaveEntry(a, orig, w, j).value.0, cs[j]);
    SavedHeadersAgree(a, orig, w, j);
    SavedLayout(a, orig, w, n, comment, j);
    TilesSplit(rs, j);
    EntryPlaced(a, orig, w, n, j);
    EndInside(cs[j], rs[j]);
    RecordParsed(data, cs[j].offset, cs[j].offset + |RecordBytes(rs[j])|, rs[j]);
    OffsetIgnored(SaveEntry(a, orig, w, j).value.0, cs[j], Stored(rs[j].header, true));
  }

  lemma FitsAnywhere(c: Dirent, d: Dirent)
    requires d == c.(offset := d.offset)
    ensures Fits(c) == Fits(d)
  {
  }

  /** An entry does not say that it ends behind its record. */
  lemma EndInside(d: Dirent, r: Record)
    requires d.compSize == |r.data| && d.filename == r.header.filename && Fits(d)
    requires d.offset + |RecordBytes(r)| < 0x8000_0000
    ensures d.offset <= EndOf(d) <= d.offset + |RecordBytes(r)|
  {
  }

  /** The header of a record in a file reads back. */
  lemma RecordParsed(data: seq<byte>, start: nat, end: nat, r: Record)
    requires start <= end <= |data| && data[start..end] == RecordBytes(r)
    ensures ParseDirent(Ahead(data, start), None, true) == Ok((Stored(r.header, true), |HeaderBytes(r.header, true)|))
  {
    hide ParseDirent, HeaderBytes;
    var more := r.data + data[end..];
    assert data[start..] == data[start..end] + data[end..];
    assert data[start..] == HeaderBytes(r.header, true) + more;
    HeaderRoundTrip(r.header, true, more, None);
  }

  lemma OffsetIgnored(c: Dirent, d: Dirent, local: Dirent)
    requires d == c.(offset := d.offset) && HeadersAgree(c, local)
    ensures HeadersAgree(d, local)
  {
  }

  /** The end record at e is the only place in the last 65558 bytes that looks like one. */
  predicate OneEndRecord(data: seq<byte>, e: nat) {
    forall p | WindowStart(data) <= p && p + EOCDLEN <= |data| && p != e :: !MagicAt(data, p, EOCD_MAGIC)
  }

  /** Opening a saved archive finds the saved directory, when the end record is the only one in the last 65558
      bytes, the entry count is readable and every entry fits. */
  lemma SavedArchiveFound(cs: seq<Dirent>, rs: seq<Record>, comment: Field)
    requires |Tiles(rs)| + |DirectoryBytes(cs)| < 0x1_0000_0000
    requires OneEndRecord(ArchiveBytes(cs, rs, comment), |Tiles(rs)| + |DirectoryBytes(cs)|)
    ensures Find(ArchiveBytes(cs, rs, comment), false) == Some(Cdir(cs, |DirectoryBytes(cs)|, |Tiles(rs)|, comment))
      <==> CountReadable(|cs|) && forall d <- cs :: Fits(d)
  {
    var data, e := ArchiveBytes(cs, rs, comment), |Tiles(rs)| + |DirectoryBytes(cs)|;
    EndRecordThere(cs, rs, comment);
    hide ReadCdirAt, DirectoryBytes, EocdBytes, ArchiveBytes, Fits, Tiles, Find, MagicAt;
    FindOnly(data, e, false);
    SavedDirectory(cs, rs, comment, false);
  }

  /** A consistent archive, saved, is found again also by an open that checks consistency, below 2 GB. */
  lemma SavedArchivePasses(a: Arch, orig: seq<byte>, w: World, n: nat, comment: Field)
    requires n <= |a.entries| && Savable(a) && forall i | 0 <= i < n :: a.entries[i].state != State.Deleted
    requires SaveEntries(a, orig, w, n).Ok? && CountReadable(n)
    requires forall i | 0 <= i < n :: AgreedBefore(a, orig, i) && Fits(SaveEntries(a, orig, w, n).value.0[i])
    requires var (cs, rs) := SaveEntries(a, orig, w, n).value;
      && |Tiles(rs)| + |DirectoryBytes(cs)| < 0x8000_0000
      && OneEndRecord(ArchiveBytes(cs, rs, comment), |Tiles(rs)| + |DirectoryBytes(cs)|)
    ensures var (cs, rs) := SaveEntries(a, orig, w, n).value;
      Find(ArchiveBytes(cs, rs, comment), true) == Some(Cdir(cs, |DirectoryBytes(cs)|, |Tiles(rs)|, comment))
  {
    hide SaveEntries, ReadCdirAt, DirectoryBytes, EocdBytes, ArchiveBytes, Fits, Tiles, Find, MagicAt, CheckCons;
    hide Savable, AgreedBefore;
    var (cs, rs) := SaveEntries(a, orig, w, n).value;
    EndRecordThere(cs, rs, comment);
    FindOnly(ArchiveBytes(cs, rs, comment), |Tiles(rs)| + |DirectoryBytes(cs)|, true);
    assert forall d <- cs :: Fits(d);
    SavedDirectory(cs, rs, comment, true);
    SavedConsistent(a, orig, w, n, comment);
  }

  lemma EndRecordThere(cs: seq<Dirent>, rs: seq<Record>, comment: Field)
    ensures var data, e := ArchiveBytes(cs, rs, comment), |Tiles(rs)| + |DirectoryBytes(cs)|;
      WindowStart(data) <= e && e + EOCDLEN <= |data| && MagicAt(data, e, EOCD_MAGIC)
  {
    hide DirectoryBytes, Tiles;
    var data, e := ArchiveBytes(cs, rs, comment), |Tiles(rs)| + |DirectoryBytes(cs)|;
    var dir := DirectoryBytes(cs);
    var end := EocdBytes(|cs|, Low32(|dir|), Low32(|Tiles(rs)|), comment);
    assert data == Tiles(rs) + dir + end;
    assert data[e..e + 4] == end[..4] == EOCD_MAGIC;
  }
}
