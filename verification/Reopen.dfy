/** A saved archive read back: its layout, its directory, its data and its names. */
module Reopening {
  import opened Bytes
  import opened ByteFiles
  import opened Dirents
  import opened Cdirs
  import opened Encodings
  import opened ArchiveModel
  import opened SaveModel

  // ----- from header offset to data offset

  /** Where the data of entry d begins, found by reading its local header. */
  function DataOffset(data: seq<byte>, d: Dirent): Result<u32, ZipError> {
    match ParseDirent(Ahead(data, d.offset), None, true)
    case Err(e) => Err(e)
    case Ok((local, _)) => Ok(Low32(d.offset + LENTRYSIZE + |local.filename| + |local.extra|))
  }

  /** `_zip_file_get_offset` */
  method FileGetOffset(zp: ByteFile, d: Dirent) returns (r: Result<u32, ZipError>)
    modifies zp`pos
    ensures r == DataOffset(zp.data, d)
  {
    var offset: nat := d.offset;
    zp.Seek(offset);
    var de, _, _ := ReadDirent(zp, None, 0, None, true);
    if de.Err? {
      return Err(de.error);
    }
    offset := offset + LENTRYSIZE + |de.value.filename| + |de.value.extra|;
    r := Ok(Low32(offset));
  }

  /** A parsed header takes as many bytes as its fixed part and its strings. */
  lemma ParsedSize(s: seq<byte>)
    ensures match ParseDirent(s, None, true)
            case Err(_) => true
            case Ok((local, n)) => n == LENTRYSIZE + |local.filename| + |local.extra|
  {
  }

  // ----- layout

  /** What the save loop leaves: entry j is saved as its own record, at the place where the earlier ones end. */
  lemma {:induction false} SavedEntry(a: Arch, orig: seq<byte>, w: World, n: nat, j: nat)
    requires j < n <= |a.entries| && Savable(a) && forall i | 0 <= i < n :: a.entries[i].state != State.Deleted
    requires SaveEntries(a, orig, w, n).Ok?
    ensures var (cs, rs) := SaveEntries(a, orig, w, n).value;
      match SaveEntry(a, orig, w, j)
      case Err(_) => false
      case Ok((c, r)) => cs[j] == c.(offset := Low32(|Tiles(rs[..j])|)) && rs[j] == r
    decreases n
  {
    hide SaveEntry, Tiles;
    var (cs, rs) := SaveEntries(a, orig, w, n).value;
    var (cs', rs') := SaveEntries(a, orig, w, n - 1).value;
    assert rs[..n - 1] == rs';
    if j < n - 1 {
      SavedEntry(a, orig, w, n - 1, j);
      assert rs[..j] == rs'[..j];
    }
  }

  /** A saved entry's size is the number of bytes copied. */
  lemma SavedSize(a: Arch, orig: seq<byte>, w: World, j: nat)
    requires j < |a.entries| && Savable(a) && a.entries[j].state != State.Deleted
    ensures match SaveEntry(a, orig, w, j)
            case Err(_) => true
            case Ok((c, r)) => c.compSize == Low32(|r.data|)
  {
    hide ParseDirent, Produced, FreshHeaders, EncodingFlags;
  }

  lemma {:induction false} TilesSplit(rs: seq<Record>, j: nat)
    requires j < |rs|
    ensures |Tiles(rs[..j])| + |RecordBytes(rs[j])| == |Tiles(rs[..j + 1])| <= |Tiles(rs)|
    ensures Tiles(rs)[|Tiles(rs[..j])|..|Tiles(rs[..j + 1])|] == RecordBytes(rs[j])
    decreases |rs|
  {
    hide RecordBytes;
    assert rs[..j + 1][..j] == rs[..j];
    if j + 1 == |rs| {
      assert rs[..j + 1] == rs;
    } else {
      var shorter := rs[..|rs| - 1];
      TilesSplit(shorter, j);
      assert shorter[..j] == rs[..j] && shorter[..j + 1] == rs[..j + 1];
    }
  }

  /** The records of a saved archive tile it from 0 to the directory; each directory entry points at the start of
      its record, and its data is found behind the local header, as long as the entry says. */
  lemma {:induction false} SavedLayout(a: Arch, orig: seq<byte>, w: World, n: nat, comment: Field, j: nat)
    requires j < n <= |a.entries| && Savable(a) && forall i | 0 <= i < n :: a.entries[i].state != State.Deleted
    requires SaveEntries(a, orig, w, n).Ok?
    requires |Tiles(SaveEntries(a, orig, w, n).value.1)| < 0x1_0000_0000
    ensures var (cs, rs) := SaveEntries(a, orig, w, n).value;
      var data := ArchiveBytes(cs, rs, comment);
      var start, size := cs[j].offset, |RecordBytes(rs[j])|;
      var end: nat := start + size;
      var dataStart: nat := start + |HeaderBytes(rs[j].header, true)|;
      && (j == 0 ==> start == 0)
      && end == (if j + 1 < n then cs[j + 1].offset else |Tiles(rs)|) <= |data|
      && data[start..end] == RecordBytes(rs[j])
      && DataOffset(data, cs[j]) == Ok(dataStart)
      && dataStart + cs[j].compSize == end
      && data[dataStart..end] == rs[j].data
  {
    hide SaveEntry, SaveEntries, EocdBytes, DirectoryBytes, HeaderBytes, ParseDirent, RecordBytes, Tiles, DataOffset;
    var (cs, rs) := SaveEntries(a, orig, w, n).value;
    var data := ArchiveBytes(cs, rs, comment);
    var tiles := Tiles(rs);
    EntryPlaced(a, orig, w, n, j);
    var start, end := |Tiles(rs[..j])|, |Tiles(rs[..j + 1])|;
    TilesSplit(rs, j);
    assert data[..|tiles|] == tiles;
    assert data[start..end] == tiles[start..end];
    RecordFound(data, start, end, rs[j], cs[j]);
  }

  /** Offsets and sizes of the saved entries, below 4 GB. */
  lemma {:induction false} EntryPlaced(a: Arch, orig: seq<byte>, w: World, n: nat, j: nat)
    requires j < n <= |a.entries| && Savable(a) && forall i | 0 <= i < n :: a.entries[i].state != State.Deleted
    requires SaveEntries(a, orig, w, n).Ok?
    requires |Tiles(SaveEntries(a, orig, w, n).value.1)| < 0x1_0000_0000
    ensures var (cs, rs) := SaveEntries(a, orig, w, n).value;
      && cs[j].offset == |Tiles(rs[..j])| && cs[j].compSize == |rs[j].data|
      && (j == 0 ==> cs[j].offset == 0)
      && |Tiles(rs[..j + 1])| == (if j + 1 < n then cs[j + 1].offset else |Tiles(rs)|)
  {
    hide SaveEntry, SaveEntries, HeaderBytes;
    var (cs, rs) := SaveEntries(a, orig, w, n).value;
    SavedEntry(a, orig, w, n, j);
    TilesSplit(rs, j);
    SavedSize(a, orig, w, j);
    if j + 1 < n {
      SavedEntry(a, orig, w, n, j + 1);
      TilesSplit(rs, j + 1);
    } else {
      assert rs[..j + 1] == rs;
    }
  }

  /** Reading at the start of a record finds its data. */
  lemma RecordFound(data: seq<byte>, start: nat, end: nat, r: Record, d: Dirent)
    requires start <= end <= |data| && end < 0x1_0000_0000 && data[start..end] == RecordBytes(r)
    requires d.offset == start
    ensures var header := |HeaderBytes(r.header, true)|;
      && DataOffset(data, d) == Ok(start + header)
      && start + header + |r.data| == end
      && data[start + header..end] == r.data
  {
    hide HeaderBytes, ParseDirent;
    var h := HeaderBytes(r.header, true);
    var more := r.data + data[end..];
    assert data[start..] == data[start..end] + data[end..];
    assert data[start..] == h + more;
    HeaderRoundTrip(r.header, true, more, None);
    var s := data[start..end];
    assert s[|h|..] == r.data && s[|h|..] == data[start + |h|..end];
  }

  // ----- the directory

  /** Reopening a saved archive below 4 GB finds exactly the saved directory if and only if the entry count is
      readable and every entry fits its fields. */
  lemma SavedDirectory(cs: seq<Dirent>, rs: seq<Record>, comment: Field, checkCons: bool)
    requires |Tiles(rs)| + |DirectoryBytes(cs)| < 0x1_0000_0000
    ensures var dir := DirectoryBytes(cs);
      ReadCdirAt(ArchiveBytes(cs, rs, comment), |Tiles(rs)| + |dir|, checkCons)
        == Ok(Cdir(cs, |dir|, |Tiles(rs)|, comment))
      <==> CountReadable(|cs|) && forall d <- cs :: Fits(d)
  {
    hide ReadCdirAt, DirectoryBytes, EocdBytes, Fits;
    CdirRoundTripIff(Tiles(rs), cs, comment, checkCons);
  }

  // ----- what saving preserves

  /** The data of an entry that was not changed comes over byte by byte: what the old archive has behind its local
      header is what the new one has behind its own. */
  lemma {:induction false} CopiedDataSurvives(a: Arch, orig: seq<byte>, w: World, n: nat, comment: Field, j: nat)
    requires j < n <= |a.entries| && Savable(a) && forall i | 0 <= i < n :: a.entries[i].state != State.Deleted
    requires SaveEntries(a, orig, w, n).Ok? && !NewData(a.entries[j])
    requires |Tiles(SaveEntries(a, orig, w, n).value.1)| < 0x1_0000_0000 && |orig| < 0x1_0000_0000
    ensures var (cs, rs) := SaveEntries(a, orig, w, n).value;
      var data := ArchiveBytes(cs, rs, comment);
      var was := Original(a, j).value;
      match (DataOffset(orig, was), DataOffset(data, cs[j]))
      case (Ok(p), Ok(q)) =>
        && cs[j].compSize == was.compSize && cs[j].crc == was.crc && cs[j].uncompSize == was.uncompSize
        && p + was.compSize <= |orig| && q + was.compSize <= |data|
        && data[q..q + was.compSize] == orig[p..p + was.compSize]
      case _ => false
  {
    hide SaveEntries, ArchiveBytes, RecordBytes, ParseDirent, Tiles, HeaderBytes, DataOffset, SaveEntry;
    SavedEntry(a, orig, w, n, j);
    SavedLayout(a, orig, w, n, comment, j);
    CopiedSlice(a, orig, w, j);
  }

  /** New data is found in the saved archive as its source produced it, with the size and checksum it announced. */
  lemma NewDataSurvives(a: Arch, orig: seq<byte>, w: World, n: nat, comment: Field, j: nat)
    requires j < n <= |a.entries| && Savable(a) && forall i | 0 <= i < n :: a.entries[i].state != State.Deleted
    requires SaveEntries(a, orig, w, n).Ok? && NewData(a.entries[j])
    requires |Tiles(SaveEntries(a, orig, w, n).value.1)| < 0x1_0000_0000
    ensures var (cs, rs) := SaveEntries(a, orig, w, n).value;
      var data := ArchiveBytes(cs, rs, comment);
      var e := a.entries[j];
      match (Produced(w, if DataChanged(e) then User(e.source.value) else Recompress(j), e.changes.compMethod),
             DataOffset(data, cs[j]))
      case (Ok((bytes, st)), Ok(q)) =>
        && cs[j].compSize == |bytes| && cs[j].crc == st.crc && cs[j].uncompSize == Low32(st.size)
        && q + |bytes| <= |data| && data[q..q + |bytes|] == bytes
      case _ => false
  {
    hide SaveEntries, ArchiveBytes, RecordBytes, Tiles, HeaderBytes, DataOffset, SaveEntry, Produced, Savable;
    SavedEntry(a, orig, w, n, j);
    SavedLayout(a, orig, w, n, comment, j);
    ProducedRecord(a, orig, w, j);
  }

  lemma ProducedRecord(a: Arch, orig: seq<byte>, w: World, j: nat)
    requires j < |a.entries| && Savable(a) && a.entries[j].state != State.Deleted && NewData(a.entries[j])
    requires SaveEntry(a, orig, w, j).Ok?
    ensures var (c, r) := SaveEntry(a, orig, w, j).value;
      var e := a.entries[j];
      match Produced(w, if DataChanged(e) then User(e.source.value) else Recompress(j), e.changes.compMethod)
      case Err(_) => false
      case Ok((bytes, st)) => r.data == bytes && c.crc == st.crc && c.uncompSize == Low32(st.size)
  {
    hide Produced, EncodingFlags;
  }

  lemma CopiedSlice(a: Arch, orig: seq<byte>, w: World, j: nat)
    requires j < |a.entries| && Savable(a) && a.entries[j].state != State.Deleted && !NewData(a.entries[j])
    requires |orig| < 0x1_0000_0000 && SaveEntry(a, orig, w, j).Ok?
    ensures var (c, r) := SaveEntry(a, orig, w, j).value;
      var was := Original(a, j).value;
      && c.compSize == was.compSize && c.crc == was.crc && c.uncompSize == was.uncompSize
      && match DataOffset(orig, was)
         case Err(_) => false
         case Ok(p) => p + was.compSize <= |orig| && r.data == orig[p..p + was.compSize]
  {
    hide ParseDirent, EncodingFlags;
    var was := Original(a, j).value;
    ParsedSize(Ahead(orig, was.offset));
    var (local, n) := ParseDirent(Ahead(orig, was.offset), None, true).value;
    assert n <= |Ahead(orig, was.offset)|;
    var p := was.offset + n;
    assert Ahead(orig, p)[..was.compSize] == orig[p..p + was.compSize];
  }

  /** The name that decides, together with the comment, about the UTF-8 flag: for a copied entry that is the local
      header's, which need not be the one in the directory. */
  function LabelledName(a: Arch, orig: seq<byte>, j: nat): seq<byte>
    requires j < |a.entries| && Original(a, j).Some?
  {
    var was := Original(a, j).value;
    if NewData(a.entries[j]) then was.filename
    else match ParseDirent(Ahead(orig, was.offset), None, true)
      case Err(_) => []
      case Ok((local, _)) => local.filename
  }

  /** The comment that decides about the UTF-8 flag: an entry with new data loses its old one. */
  function LabelledComment(a: Arch, j: nat): seq<byte>
    requires j < |a.entries| && Original(a, j).Some?
  {
    Or(a.entries[j].changes.comment, if NewData(a.entries[j]) then [] else Original(a, j).value.comment)
  }

  /** The flag says the same before and after saving, or it does not matter. */
  predicate LabelKept(a: Arch, orig: seq<byte>, j: nat)
    requires j < |a.entries| && Original(a, j).Some?
  {
    var was := Original(a, j).value;
    || Guess(was.filename) != Cp437
    || (HasBit(was.bitflags, ENCODING_UTF_8) <==> WantsUtf8(LabelledName(a, orig, j), LabelledComment(a, j)))
  }

  /** The name an entry is shown under survives saving and reopening exactly when it is a new one, is made of whole
      characters, or is marked as UTF-8 afterwards if and only if it was before. */
  lemma {:induction false} VisibleNameSurvives(a: Arch, orig: seq<byte>, w: World, n: nat, j: nat)
    requires j < n <= |a.entries| && Consistent(a) && Savable(a)
    requires (forall i | 0 <= i < n :: a.entries[i].state != State.Deleted) && SaveEntries(a, orig, w, n).Ok?
    ensures var (cs, rs) := SaveEntries(a, orig, w, n).value;
      Ok(DisplayName(cs[j], DEFAULT)) == NameOf(a, j, DEFAULT)
      <==> a.entries[j].changes.filename.Some? || LabelKept(a, orig, j)
  {
    hide SaveEntries, SaveEntry, Guess, Cp437ToUtf8, HasBit, LabelledName, LabelledComment, Savable, WantsUtf8, Tiles;
    SavedEntry(a, orig, w, n, j);
    var d := SaveEntries(a, orig, w, n).value.0[j];
    assert EntryOk(a, j);
    SavableMeans(a, j);
    if a.entries[j].changes.filename.None? {
      SavedLabel(a, orig, w, j);
      ConvertedText(Original(a, j).value.filename);
    } else {
      SavedNewName(a, orig, w, j);
    }
  }

  lemma SavableMeans(a: Arch, j: nat)
    requires Savable(a) && j < |a.entries| && a.entries[j].state != State.Deleted
    ensures a.entries[j].changes.filename.None? ==> Original(a, j).Some?
  {
  }

  lemma SavedNewName(a: Arch, orig: seq<byte>, w: World, j: nat)
    requires j < |a.entries| && Savable(a) && a.entries[j].state != State.Deleted
    requires SaveEntry(a, orig, w, j).Ok? && a.entries[j].changes.filename.Some?
    ensures SaveEntry(a, orig, w, j).value.0.filename == a.entries[j].changes.filename.value
  {
    hide EncodingFlags, Produced, ParseDirent;
  }

  /** What is saved of an old name and its flag. */
  lemma SavedLabel(a: Arch, orig: seq<byte>, w: World, j: nat)
    requires j < |a.entries| && Savable(a) && a.entries[j].state != State.Deleted
    requires SaveEntry(a, orig, w, j).Ok? && a.entries[j].changes.filename.None? && Original(a, j).Some?
    ensures var c := SaveEntry(a, orig, w, j).value.0;
      && c.filename == Original(a, j).value.filename
      && (HasBit(c.bitflags, ENCODING_UTF_8) <==> WantsUtf8(LabelledName(a, orig, j), LabelledComment(a, j)))
  {
    hide WantsUtf8, HasBit, ClearBit, SetBit, Produced, ParseDirent;
    var e, was := a.entries[j], Original(a, j).value;
    if NewData(e) {
      FlagSet(0, LabelledName(a, orig, j), LabelledComment(a, j));
    } else {
      var local := ParseDirent(Ahead(orig, was.offset), None, true).value.0;
      var flags :=
        if HasBit(local.bitflags, DATA_DESCRIPTOR) then ClearBit(local.bitflags, DATA_DESCRIPTOR) else local.bitflags;
      FlagSet(flags, LabelledName(a, orig, j), LabelledComment(a, j));
    }
  }

  lemma FlagSet(flags: u16, name: seq<byte>, comment: seq<byte>)
    ensures HasBit(EncodingFlags(flags, name, comment), ENCODING_UTF_8) <==> WantsUtf8(name, comment)
  {
    hide WantsUtf8;
  }

  /** A name that is lost: 0x80 in the directory, "a" in the local header, and a comment in UTF-8. The comment asks for
      the flag, the local header's name does not object, and a name shown converted is shown as it is afterwards. */
  lemma LostName() returns (a: Arch, orig: seq<byte>, w: World)
    ensures JustOpened(a) && |a.entries| == 1 && Savable(a) && SaveEntries(a, orig, w, 1).Ok?
    ensures Ok(DisplayName(SaveEntries(a, orig, w, 1).value.0[0], DEFAULT)) != NameOf(a, 0, DEFAULT)
  {
    hide Guess, HeaderBytes, ParseDirent, HasBit, SaveEntries, SaveEntry, WantsUtf8;
    var d := InitDirent(DosTime(0, 0));
    var local, was := d.(filename := [0x61]), d.(filename := [0x80], comment := [0xC3, 0xA9]);
    a := Arch(0, 0, None, Some([was]), [NEW_ENTRY]);
    orig := HeaderBytes(local, true);
    w := World(_ => false, _ => None, (_, _) => Output([], true, None), DosTime(0, 0));
    HeaderRoundTrip(local, true, [], None);
    assert orig + [] == orig && Ahead(orig, 0) == orig;
    LostNameSaved(a, orig, w, was);
    VisibleNameSurvives(a, orig, w, 1, 0);
    NoUtf8();
    Guesses();
  }

  lemma LostNameSaved(a: Arch, orig: seq<byte>, w: World, was: Dirent)
    requires a == Arch(0, 0, None, Some([was]), [NEW_ENTRY]) && Savable(a) && was.compSize == 0
    requires ParseDirent(Ahead(orig, was.offset), None, true).Ok?
    ensures SaveEntries(a, orig, w, 1).Ok?
  {
    hide ParseDirent, EncodingFlags;
    assert SaveEntries(a, orig, w, 0) == Ok(([], []));
    assert SaveEntry(a, orig, w, 0).Ok?;
  }

  lemma Guesses()
    ensures Guess([0x80]) == Cp437 && WantsUtf8([0x61], [0xC3, 0xA9])
  {
    assert Guess([0x61]) == Ascii && Guess([0xC3, 0xA9]) == Utf8;
  }

  lemma NoUtf8()
    ensures !HasBit(0, ENCODING_UTF_8)
  {
  }
}
