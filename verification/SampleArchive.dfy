/** Literal archives: what the bytes of a zip file mean, and which bytes are written for it. */
module SampleArchive {
  import opened Bytes
  import opened ByteFiles
  import opened Dirents
  import opened Cdirs
  import opened Reopening
  import opened FindCdir

  // ----- a header of each kind, and an end record

  /** Version 0x0A14, flags 0x1602, method 0x0B08; time 0x7A59, date 0x4E2D; checksum and sizes; the lengths of what
      follows: the name "a/b" and two bytes of extra field. */
  const LOCAL: seq<byte> :=
    [0x50, 0x4B, 0x03, 0x04] + [0x14, 0x0A, 0x02, 0x16, 0x08, 0x0B] + [0x59, 0x7A, 0x2D, 0x4E]
    + [0xF1, 0xE2, 0xD3, 0xC4, 0x3D, 0x2C, 0x1B, 0x0A, 0x81, 0x70, 0x6F, 0x5E] + [0x03, 0x00, 0x02, 0x00]
    + [0x61, 0x2F, 0x62] + [0x99, 0x42]

  /** The same with a version 0x0315 in front; the length of a comment, disk 0x2122, attributes 0x2324 and 0x25262728
      and offset 0x04030201 behind it; and the comment "note". */
  const CENTRAL: seq<byte> :=
    [0x50, 0x4B, 0x01, 0x02] + [0x15, 0x03] + [0x14, 0x0A, 0x02, 0x16, 0x08, 0x0B] + [0x59, 0x7A, 0x2D, 0x4E]
    + [0xF1, 0xE2, 0xD3, 0xC4, 0x3D, 0x2C, 0x1B, 0x0A, 0x81, 0x70, 0x6F, 0x5E] + [0x03, 0x00, 0x02, 0x00]
    + [0x04, 0x00, 0x22, 0x21, 0x24, 0x23, 0x28, 0x27, 0x26, 0x25, 0x01, 0x02, 0x03, 0x04]
    + [0x61, 0x2F, 0x62] + [0x99, 0x42] + [0x6E, 0x6F, 0x74, 0x65]

  /** One entry, a directory of 0x37 bytes at 0x0E1E2E61, and the comment "hi!". */
  const END: seq<byte> := [
    0x50, 0x4B, 0x05, 0x06, 0x00, 0x00, 0x00, 0x00, 0x01, 0x00, 0x01, 0x00, 0x37, 0x00, 0x00, 0x00,
    0x61, 0x2E, 0x1E, 0x0E, 0x03, 0x00] + [0x68, 0x69, 0x21]

  const ENTRY := Dirent(
    0x0315, 0x0A14, 0x1602, 0x0B08, DosTime(0x7A59, 0x4E2D), 0xC4D3_E2F1, 0x0A1B_2C3D, 0x5E6F_7081,
    0x2122, 0x2324, 0x2526_2728, 0x0403_0201, [0x61, 0x2F, 0x62], [0x99, 0x42], [0x6E, 0x6F, 0x74, 0x65])

  const LOCAL_ENTRY := Dirent(
    0, 0x0A14, 0x1602, 0x0B08, DosTime(0x7A59, 0x4E2D), 0xC4D3_E2F1, 0x0A1B_2C3D, 0x5E6F_7081,
    0, 0, 0, 0, [0x61, 0x2F, 0x62], [0x99, 0x42], [])

  /** Reading the local header, whatever follows it. */
  lemma LocalMeans(more: seq<byte>)
    ensures ParseDirent(LOCAL + more, None, true) == Ok((LOCAL_ENTRY, 35))
  {
    hide Spaced;
    var s := LOCAL + more;
    var t := s[30..];
    assert s[..4] == [0x50, 0x4B, 0x03, 0x04];
    assert t[..3] == [0x61, 0x2F, 0x62] && t[3..5] == [0x99, 0x42] && t[5..5] == [];
    Name();
  }

  lemma Name()
    ensures Spaced([0x61, 0x2F, 0x62]) == [0x61, 0x2F, 0x62]
  {
  }

  /** Reading the central one. */
  lemma CentralMeans(more: seq<byte>, left: Option<nat>)
    requires left.Some? ==> left.value >= 55
    ensures ParseDirent(CENTRAL + more, left, false) == Ok((ENTRY, 55))
  {
    hide FixedFields, StringsOf, NameLength, ExtraLength, CommentLength;
    var s := CENTRAL + more;
    assert s[..4] == [0x50, 0x4B, 0x01, 0x02];
    CentralFixed(s);
    CentralStrings(s[46..], more);
  }

  lemma CentralFixed(s: seq<byte>)
    requires |s| >= 46 && s[..46] == CENTRAL[..46]
    ensures FixedFields(s, false) == ENTRY.(filename := [], extra := [], comment := [])
    ensures NameLength(s, false) == 3 && ExtraLength(s, false) == 2 && CommentLength(s, false) == 4
  {
    assert forall i | 0 <= i < 46 :: s[i] == s[..46][i];
  }

  lemma CentralStrings(t: seq<byte>, more: seq<byte>)
    requires t == [0x61, 0x2F, 0x62] + [0x99, 0x42] + [0x6E, 0x6F, 0x74, 0x65] + more
    ensures StringsOf(t, 3, 2, 4) == ([0x61, 0x2F, 0x62], [0x99, 0x42], [0x6E, 0x6F, 0x74, 0x65])
  {
    hide Spaced;
    assert t[..3] == [0x61, 0x2F, 0x62] && t[3..5] == [0x99, 0x42] && t[5..9] == [0x6E, 0x6F, 0x74, 0x65];
    Name();
  }

  /** Reading the end record. */
  lemma EndMeans(e: nat, checkCons: bool)
    requires e >= 0x0E1E_2E98
    ensures ParseEnd(END, e, checkCons) == Ok(EndRecord(1, 0x37, 0x0E1E_2E61, [0x68, 0x69, 0x21]))
  {
    assert END[..4] == [0x50, 0x4B, 0x05, 0x06] && END[4..8] == [0, 0, 0, 0];
    assert END[22..25] == [0x68, 0x69, 0x21];
  }

  // ----- a whole archive

  /** Behind any 0x04030201 bytes, an archive of one member of 0x0A1B2C3D bytes. */
  function Archive(front: seq<byte>, content: seq<byte>): seq<byte> {
    front + (LOCAL + (content + (CENTRAL + END)))
  }

  lemma Places(front: seq<byte>, content: seq<byte>)
    requires |front| == 0x0403_0201 && |content| == 0x0A1B_2C3D
    ensures var file := Archive(front, content);
      && |file| == 0x0E1E_2EB1
      && file[0x0403_0201..] == LOCAL + (content + (CENTRAL + END))
      && file[0x0403_0224..] == content + (CENTRAL + END)
      && file[0x0E1E_2E61..] == CENTRAL + END
      && file[0x0E1E_2E98..] == END
  {
    hide *;
    var file := Archive(front, content);
    Sizes();
    ArchiveIs(front, content);
    var rest := LOCAL + (content + (CENTRAL + END));
    assert file[0x0403_0201..] == rest;
    assert file[0x0403_0224..] == rest[35..];
    assert file[0x0E1E_2E61..] == rest[35..][0x0A1B_2C3D..];
    assert file[0x0E1E_2E98..] == rest[35..][0x0A1B_2C3D..][55..];
  }

  lemma Sizes()
    ensures |LOCAL| == 35 && |CENTRAL| == 55 && |END| == 25
  {
  }

  lemma ArchiveIs(front: seq<byte>, content: seq<byte>)
    ensures Archive(front, content) == front + (LOCAL + (content + (CENTRAL + END)))
  {
  }

  /** The end record leads to the directory, its entry to the local header and the member's data. */
  lemma ArchiveMeans(front: seq<byte>, content: seq<byte>, checkCons: bool)
    requires |front| == 0x0403_0201 && |content| == 0x0A1B_2C3D
    ensures var file := Archive(front, content);
      && ReadCdirAt(file, 0x0E1E_2E98, checkCons) == Ok(Cdir([ENTRY], 0x37, 0x0E1E_2E61, [0x68, 0x69, 0x21]))
      && ParseDirent(Ahead(file, 0x0403_0201), None, true) == Ok((LOCAL_ENTRY, 35))
      && DataOffset(file, ENTRY) == Ok(0x0403_0224)
      && Ahead(file, 0x0403_0224) == content + (CENTRAL + END)
  {
    hide Archive, LOCAL, CENTRAL, END, ParseDirent, ParseEnd, ReadEntries;
    var file := Archive(front, content);
    Places(front, content);
    LocalMeans(content + (CENTRAL + END));
    CentralMeans(END, Some(0x37));
    EndMeans(0x0E1E_2E98, checkCons);
    OneEntry(CENTRAL + END);
  }

  lemma OneEntry(s: seq<byte>)
    requires ParseDirent(s, Some(0x37), false) == Ok((ENTRY, 55))
    ensures ReadEntries(s, 0x37, 0, 1) == Ok([ENTRY])
  {
    hide ParseDirent;
    assert ReadEntries(s[55..], 0, 1, 1) == Ok([]) && [ENTRY] + [] == [ENTRY];
  }

  /** Opening finds it, when no other place in the last 65558 bytes looks like an end record. */
  lemma ArchiveFound(front: seq<byte>, content: seq<byte>, checkCons: bool)
    requires |front| == 0x0403_0201 && |content| == 0x0A1B_2C3D
    requires var file := Archive(front, content);
      forall p: nat | |file| - 65558 <= p && p + 22 <= |file| && p != 0x0E1E_2E98 ::
        !(file[p] == 0x50 && file[p + 1] == 0x4B && file[p + 2] == 0x05 && file[p + 3] == 0x06)
    ensures var file := Archive(front, content);
      && Find(file, checkCons) == Some(Cdir([ENTRY], 0x37, 0x0E1E_2E61, [0x68, 0x69, 0x21]))
      && CheckCons(file, Cdir([ENTRY], 0x37, 0x0E1E_2E61, [0x68, 0x69, 0x21])) == 0x0A1B_2C5E
  {
    hide Archive, LOCAL, CENTRAL, ParseDirent, ParseEnd, ReadEntries, ReadCdirAt, Find, CheckCons;
    var file := Archive(front, content);
    Places(front, content);
    Sizes();
    ArchiveMeans(front, content, checkCons);
    assert file[0x0E1E_2E98..][..4] == END[..4] == [0x50, 0x4B, 0x05, 0x06];
    assert MagicAt(file, 0x0E1E_2E98, [0x50, 0x4B, 0x05, 0x06]);
    forall p | WindowStart(file) <= p && p + 22 <= |file| && p != 0x0E1E_2E98
      ensures !MagicAt(file, p, [0x50, 0x4B, 0x05, 0x06])
    {
      NotThere(file, p);
    }
    FindOnly(file, 0x0E1E_2E98, checkCons);
    Checked(file);
  }

  lemma NotThere(file: seq<byte>, p: nat)
    requires p + 22 <= |file|
    requires !(file[p] == 0x50 && file[p + 1] == 0x4B && file[p + 2] == 0x05 && file[p + 3] == 0x06)
    ensures !MagicAt(file, p, [0x50, 0x4B, 0x05, 0x06])
  {
    var t := file[p..p + 4];
    assert t[0] == file[p] && t[1] == file[p + 1] && t[2] == file[p + 2] && t[3] == file[p + 3];
  }

  lemma Checked(file: seq<byte>)
    requires ParseDirent(Ahead(file, 0x0403_0201), None, true) == Ok((LOCAL_ENTRY, 35))
    ensures CheckCons(file, Cdir([ENTRY], 0x37, 0x0E1E_2E61, [0x68, 0x69, 0x21])) == 0x0A1B_2C5E
  {
    hide ParseDirent;
    var cd := Cdir([ENTRY], 0x37, 0x0E1E_2E61, [0x68, 0x69, 0x21]);
    CheckNext(file, cd, 0, 0x0403_0201, 0x0403_0201);
    CheckEnds(file, cd, 1, 0x0403_0201, 0x0E1E_2E5F);
  }

  /** The archive without members: 22 bytes. */
  lemma EmptyArchive(checkCons: bool)
    ensures var file := [0x50, 0x4B, 0x05, 0x06] + seq(18, _ => 0);
      ReadCdirAt(file, 0, checkCons) == Ok(Cdir([], 0, 0, [])) && Find(file, checkCons) == Some(Cdir([], 0, 0, []))
  {
    hide Find;
    var file: seq<byte> := [0x50, 0x4B, 0x05, 0x06] + seq(18, _ => 0);
    assert file[..4] == [0x50, 0x4B, 0x05, 0x06] && file[4..8] == [0, 0, 0, 0] && file[22..22] == [];
    assert MagicAt(file, 0, [0x50, 0x4B, 0x05, 0x06]);
    FindOnly(file, 0, checkCons);
  }

  /** The longest comment, behind anything, and nothing else that looks like an end record. */
  lemma LongestComment(front: seq<byte>, comment: seq<byte>, checkCons: bool)
    requires |comment| == 65535
    requires var file := front + LongEnd(comment);
      forall p: nat | p + 22 <= |file| && p != |front| ::
        !(file[p] == 0x50 && file[p + 1] == 0x4B && file[p + 2] == 0x05 && file[p + 3] == 0x06)
    ensures Find(front + LongEnd(comment), checkCons) == Some(Cdir([], 0, 0, comment))
  {
    hide Find, MagicAt, LongEnd, ParseEnd;
    var file := front + LongEnd(comment);
    LongEndMeans(comment, |front|, checkCons);
    assert Ahead(file, |front|) == LongEnd(comment);
    assert MagicAt(file, |front|, [0x50, 0x4B, 0x05, 0x06]) by {
      assert file[|front|..|front| + 4] == LongEnd(comment)[..4];
      ThereIs(file, |front|);
    }
    forall p | WindowStart(file) <= p && p + 22 <= |file| && p != |front|
      ensures !MagicAt(file, p, [0x50, 0x4B, 0x05, 0x06])
    {
      NotThere(file, p);
    }
    FindOnly(file, |front|, checkCons);
  }

  /** An end record without entries and with a comment of 65535 bytes. */
  function LongEnd(comment: seq<byte>): seq<byte> {
    [0x50, 0x4B, 0x05, 0x06] + seq(16, _ => 0) + [0xFF, 0xFF] + comment
  }

  lemma LongEndMeans(comment: seq<byte>, e: nat, checkCons: bool)
    requires |comment| == 65535
    ensures ParseEnd(LongEnd(comment), e, checkCons) == Ok(EndRecord(0, 0, 0, comment))
    ensures |LongEnd(comment)| == 65557 && LongEnd(comment)[..4] == [0x50, 0x4B, 0x05, 0x06]
  {
    var end := LongEnd(comment);
    assert end[..4] == [0x50, 0x4B, 0x05, 0x06] && end[4..8] == [0, 0, 0, 0] && end[22..22 + 65535] == comment;
  }

  lemma ThereIs(file: seq<byte>, p: nat)
    requires p + 4 <= |file| && file[p..p + 4] == [0x50, 0x4B, 0x05, 0x06]
    ensures MagicAt(file, p, [0x50, 0x4B, 0x05, 0x06])
  {
  }

  // ----- what is refused

  /** An end record is refused without its signature, with a disk number, with a directory that ends behind it, when
      its two counts differ, when its comment is cut off, and, for the consistency check, when more than the comment
      follows. */
  lemma EndsRefused(e: nat, checkCons: bool)
    requires e >= 0x0E1E_2E98
    ensures ParseEnd(END[3 := 0x05], e, checkCons) == Err(ErNoZip)
    ensures ParseEnd(END[..21], e, checkCons) == Err(ErNoZip)
    ensures ParseEnd(END[4 := 1], e, checkCons) == ParseEnd(END[6 := 1], e, checkCons) == Err(ErMultiDisk)
    ensures ParseEnd(END, 0x0E1E_2E97, checkCons) == Err(ErIncons)
    ensures ParseEnd(END[8 := 2], e, checkCons) == ParseEnd(END[10 := 2], e, checkCons) == Err(ErNoZip)
    ensures ParseEnd(END[20 := 4], e, checkCons) == ParseEnd(END[21 := 1], e, checkCons) == Err(ErNoZip)
    ensures ParseEnd(END + [0], e, true) == Err(ErIncons) && ParseEnd(END + [0], e, false).Ok?
  {
    hide ParseEnd, END;
    StartRefused(e, checkCons);
    CountsRefused(e, checkCons);
  }

  lemma StartRefused(e: nat, checkCons: bool)
    ensures ParseEnd(END[3 := 0x05], e, checkCons) == ParseEnd(END[..21], e, checkCons) == Err(ErNoZip)
    ensures ParseEnd(END[4 := 1], e, checkCons) == ParseEnd(END[6 := 1], e, checkCons) == Err(ErMultiDisk)
    ensures ParseEnd(END, 0x0E1E_2E97, checkCons) == Err(ErIncons)
  {
    EndStart(END);
    assert END[3 := 0x05][..4][3] == 5 && END[4 := 1][4..8][0] == 1 && END[6 := 1][4..8][2] == 1;
    assert END[4 := 1][..4] == END[..4] == END[6 := 1][..4];
  }

  lemma CountsRefused(e: nat, checkCons: bool)
    requires e >= 0x0E1E_2E98
    ensures ParseEnd(END[8 := 2], e, checkCons) == ParseEnd(END[10 := 2], e, checkCons) == Err(ErNoZip)
    ensures ParseEnd(END[20 := 4], e, checkCons) == ParseEnd(END[21 := 1], e, checkCons) == Err(ErNoZip)
    ensures ParseEnd(END + [0], e, true) == Err(ErIncons) && ParseEnd(END + [0], e, false).Ok?
  {
    EndStart(END[8 := 2]);
    EndStart(END[10 := 2]);
    EndStart(END[20 := 4]);
    EndStart(END[21 := 1]);
    EndStart(END + [0]);
  }

  lemma EndStart(t: seq<byte>)
    requires |t| >= 25 && forall i | 0 <= i < 8 :: t[i] == END[i]
    ensures t[..4] == [0x50, 0x4B, 0x05, 0x06] && t[4..8] == [0, 0, 0, 0]
  {
    assert forall i | 0 <= i < 8 :: t[i] == END[i];
  }

  /** A header is refused without its signature or when it is longer than the limit (before any byte is read, for the
      fixed part), and cannot be read when the file ends in it. */
  lemma HeadersRefused(n: nat, left: Option<nat>)
    ensures n < 35 ==> ParseDirent(LOCAL[..n], None, true) == Err(ErRead)
    ensures n < 35 ==> ParseDirent(LOCAL, Some(n), true) == Err(ErNoZip)
    ensures n < 55 ==> ParseDirent(CENTRAL[..n], None, false) == Err(ErRead)
    ensures n < 55 ==> ParseDirent(CENTRAL, Some(n), false) == Err(ErNoZip)
    ensures left.None? || left.value >= 46 ==>
      && ParseDirent(LOCAL + CENTRAL, left, false) == Err(ErNoZip)
      && ParseDirent(CENTRAL, left, true) == Err(ErNoZip)
    ensures ParseDirent([], Some(29), true) == ParseDirent([], Some(45), false) == Err(ErNoZip)
    ensures ParseDirent([], Some(30), true) == ParseDirent([], Some(46), false) == Err(ErRead)
  {
    hide ParseDirent, LOCAL, CENTRAL;
    LocalRefused(n);
    CentralRefused(n);
    if left.None? || left.value >= 46 {
      KindsRefused(left);
    }
  }

  lemma LocalRefused(n: nat)
    ensures n < 35 ==> ParseDirent(LOCAL[..n], None, true) == Err(ErRead)
    ensures n < 35 ==> ParseDirent(LOCAL, Some(n), true) == Err(ErNoZip)
    ensures ParseDirent([], Some(29), true) == Err(ErNoZip) && ParseDirent([], Some(30), true) == Err(ErRead)
  {
    hide WithStrings;
    assert LOCAL[..4] == [0x50, 0x4B, 0x03, 0x04];
    if n < 35 && n >= 30 {
      assert LOCAL[..n][..4] == LOCAL[..4];
    }
  }

  lemma CentralRefused(n: nat)
    ensures n < 55 ==> ParseDirent(CENTRAL[..n], None, false) == Err(ErRead)
    ensures n < 55 ==> ParseDirent(CENTRAL, Some(n), false) == Err(ErNoZip)
    ensures ParseDirent([], Some(45), false) == Err(ErNoZip) && ParseDirent([], Some(46), false) == Err(ErRead)
  {
    hide WithStrings;
    assert CENTRAL[..4] == [0x50, 0x4B, 0x01, 0x02];
    if n < 55 && n >= 46 {
      assert CENTRAL[..n][..4] == CENTRAL[..4];
    }
  }

  lemma KindsRefused(left: Option<nat>)
    requires left.None? || left.value >= 46
    ensures ParseDirent(LOCAL + CENTRAL, left, false) == ParseDirent(CENTRAL, left, true) == Err(ErNoZip)
  {
    hide WithStrings;
    assert (LOCAL + CENTRAL)[..4][2] == 3 && CENTRAL[..4][2] == 1;
  }

  // ----- what is written

  /** The headers that are put for these entries. */
  method WriteHeaders(local: ByteFile, central: ByteFile)
    requires local != central && local.data == central.data == [] && local.pos == central.pos == 0
    modifies local, central
    ensures local.data == LOCAL && central.data == CENTRAL
  {
    hide LOCAL, CENTRAL, HeaderBytes, Overwrite;
    HeadersWritten();
    WriteDirent(LOCAL_ENTRY, local, true);
    WriteDirent(ENTRY, central, false);
    OverwriteAtEnd([], LOCAL);
    OverwriteAtEnd([], CENTRAL);
  }

  lemma HeadersWritten()
    ensures HeaderBytes(LOCAL_ENTRY, true) == LOCAL && HeaderBytes(ENTRY, true) == LOCAL
    ensures HeaderBytes(ENTRY, false) == CENTRAL
  {
    hide SharedFields;
    var strings: seq<byte> := [0x61, 0x2F, 0x62] + [0x99, 0x42];
    assert WrittenName(ENTRY) == [0x61, 0x2F, 0x62] == WrittenName(LOCAL_ENTRY);
    SharedWritten(LOCAL_ENTRY, strings);
    SharedWritten(ENTRY, strings);
    CentralWritten();
  }

  lemma CentralWritten()
    ensures HeaderBytes(ENTRY, false) == CENTRAL
  {
    hide SharedFields, Le16, Le32;
    CentralBytes();
    var strings: seq<byte> := [0x61, 0x2F, 0x62] + ([0x99, 0x42] + [0x6E, 0x6F, 0x74, 0x65]);
    assert WrittenName(ENTRY) == [0x61, 0x2F, 0x62];
    SharedWritten(ENTRY, CentralFields(ENTRY, strings));
  }

  lemma SharedWritten(d: Dirent, rest: seq<byte>)
    requires d == ENTRY || d == LOCAL_ENTRY
    ensures SharedFields(d, rest) == [0x14, 0x0A, 0x02, 0x16, 0x08, 0x0B] + [0x59, 0x7A, 0x2D, 0x4E]
      + [0xF1, 0xE2, 0xD3, 0xC4, 0x3D, 0x2C, 0x1B, 0x0A, 0x81, 0x70, 0x6F, 0x5E] + [0x03, 0x00, 0x02, 0x00] + rest
  {
    hide Le16, Le32;
    assert WrittenName(d) == [0x61, 0x2F, 0x62];
    SharedBytes();
  }

  lemma SharedBytes()
    ensures Le16(0x0A14) == [0x14, 0x0A] && Le16(0x1602) == [0x02, 0x16] && Le16(0x0B08) == [0x08, 0x0B]
    ensures Le16(0x7A59) == [0x59, 0x7A] && Le16(0x4E2D) == [0x2D, 0x4E]
    ensures Le32(0xC4D3_E2F1) == [0xF1, 0xE2, 0xD3, 0xC4] && Le32(0x0A1B_2C3D) == [0x3D, 0x2C, 0x1B, 0x0A]
    ensures Le32(0x5E6F_7081) == [0x81, 0x70, 0x6F, 0x5E] && Le16(3) == [3, 0] && Le16(2) == [2, 0]
  {
  }

  lemma CentralBytes()
    ensures Le16(0x0315) == [0x15, 0x03] && Le16(4) == [4, 0]
    ensures Le16(0x2122) == [0x22, 0x21] && Le16(0x2324) == [0x24, 0x23]
    ensures Le32(0x2526_2728) == [0x28, 0x27, 0x26, 0x25] && Le32(0x0403_0201) == [0x01, 0x02, 0x03, 0x04]
  {
  }

  /** A member written by hand: its header, its data and the directory make up the archive. */
  method WriteArchive(front: seq<byte>, content: seq<byte>) returns (file: ByteFile)
    requires |front| == 0x0403_0201 && |content| == 0x0A1B_2C3D
    ensures fresh(file) && file.data == Archive(front, content)
  {
    hide LOCAL, CENTRAL, END, HeaderBytes, Overwrite, EocdBytes, DirectoryBytes;
    file := new ByteFile(front);
    file.Seek(|front|);
    HeadersWritten();
    EndWritten();
    Sizes();
    WriteDirent(ENTRY, file, true);
    OverwriteAtEnd(front, LOCAL);
    OverwriteAtEnd(front + LOCAL, content);
    file.Write(content);
    var cd := new CentralDirectory(1);
    cd.entry, cd.comment := [ENTRY], [0x68, 0x69, 0x21];
    OverwriteAtEnd(front + LOCAL + content, CENTRAL + END);
    cd.Write(file);
    assert front + LOCAL + content + (CENTRAL + END) == front + (LOCAL + (content + (CENTRAL + END)));
  }

  lemma EndWritten()
    ensures DirectoryBytes([ENTRY]) == CENTRAL && EocdBytes(1, 0x37, 0x0E1E_2E61, [0x68, 0x69, 0x21]) == END
  {
    hide HeaderBytes, CENTRAL;
    HeadersWritten();
    assert HeaderBytes(ENTRY, false) + [] == CENTRAL;
  }
}
