/** Saving an archive: `zip_close` and what it calls. */
module Closing {
  import opened Bytes
  import opened ByteFiles
  import opened Dirents
  import opened Cdirs
  import opened Encodings
  import opened ArchiveModel
  import opened SaveModel
  import opened Archives

  const BUFSIZE := 8192

  /** `copy_data`: moves len bytes from one file to the end of another, a buffer at a time. */
  method CopyData(fs: ByteFile, len: nat, ft: ByteFile) returns (error: Error)
    requires fs != ft && ft.pos == |ft.data|
    modifies fs`pos, ft
    ensures var data := Ahead(fs.data, old(fs.pos));
      if |data| < len then error == Some(ErEof)
      else error == None && ft.data == old(ft.data) + data[..len] && ft.pos == |ft.data|
  {
    hide Overwrite;
    ghost var data := Ahead(fs.data, fs.pos);
    var left: nat := len;
    while left > 0
      invariant left <= len && len - left <= |data|
      invariant Ahead(fs.data, fs.pos) == data[len - left..]
      invariant ft.data == old(ft.data) + data[..len - left] && ft.pos == |ft.data|
    {
      var done := len - left;
      var nn := if left > BUFSIZE then BUFSIZE else left;
      var buf := fs.Read(nn);
      if |buf| == 0 {
        return Some(ErEof);
      }
      OverwriteAtEnd(ft.data, buf);
      ft.Write(buf);
      assert data[..done] + buf == data[..done + |buf|];
      left := left - |buf|;
    }
    error := None;
  }

  /** `copy_source`: writes what the source gives, chunk by chunk. */
  method CopySource(out: Output, ft: ByteFile) returns (ok: bool)
    requires ft.pos == |ft.data|
    modifies ft
    ensures ok == !out.failed
    ensures ft.data == old(ft.data) + Joined(out.chunks) && ft.pos == |ft.data|
  {
    for i := 0 to |out.chunks|
      invariant ft.data == old(ft.data) + Joined(out.chunks[..i]) && ft.pos == |ft.data|
    {
      OverwriteAtEnd(ft.data, out.chunks[i]);
      ft.Write(out.chunks[i]);
      assert out.chunks[..i + 1][..i] == out.chunks[..i];
    }
    assert out.chunks[..|out.chunks|] == out.chunks;
    ok := !out.failed;
  }

  /** The second header of `add_data` covers exactly the first. */
  lemma SecondHeader(before: seq<byte>, first: seq<byte>, data: seq<byte>, second: seq<byte>)
    requires |first| == |second|
    ensures Overwrite(before + first + data, |before|, second) == before + second + data
  {
    var all := before + first + data;
    assert all[..|before|] == before && all[|before| + |second|..] == data;
  }

  /** `add_data`: header, data, and the header again once sizes and checksum are known. */
  method AddData(feed: Feed, asked: Option<int>, de: Dirent, w: World, ft: ByteFile)
    returns (r: Result<Dirent, ZipError>)
    requires w.opens(feed) && ft.pos == |ft.data|
    modifies ft
    ensures match Produced(w, feed, asked)
            case Err(e) => r == Err(e)
            case Ok((data, st)) =>
              var d := WithStat(de, st, |data|);
              && r == Ok(d)
              && ft.data == old(ft.data) + RecordBytes(Record(d, data))
              && ft.pos == |ft.data|
  {
    var st := w.before(feed);
    if st == None {
      return Err(ErSource);
    }
    ghost var before := ft.data;
    var offstart := ft.pos;
    OverwriteAtEnd(before, HeaderBytes(de, true));
    WriteDirent(de, ft, true);
    var wanted := Wanted(asked);
    var layers := Layers(st.value, wanted);
    if layers.Err? {
      return Err(layers.error);
    }
    var offdata := ft.pos;
    var out := w.run(feed, layers.value);
    var ok := CopySource(out, ft);
    if !ok || out.stat == None {
      return Err(ErSource);
    }
    var offend := ft.pos;
    ft.Seek(offstart);
    var d := WithStat(de, out.stat.value, offend - offdata);
    ghost var data := Joined(out.chunks);
    SecondHeader(before, HeaderBytes(de, true), data, HeaderBytes(d, true));
    WriteDirent(d, ft, true);
    ft.Seek(offend);
    assert before + (HeaderBytes(d, true) + data) == before + HeaderBytes(d, true) + data;
    r := Ok(d);
  }

  method LookUp(za: Zip, i: nat) returns (e: Entry, original: Option<Dirent>)
    requires za.Valid() && i < za.nentry
    ensures e == za.Model().entries[i] && original == Original(za.Model(), i)
  {
    e := za.entry[i];
    original := if za.cdir != null && i < za.cdir.Length then Some(za.cdir[i].d) else None;
    assert za.cdir != null ==> za.Model().cdir == Some(Uncached(za.cdir[..]));
  }

  /** One round of the save loop: entry number i, as local record and directory entry. */
  method SaveOne(za: Zip, i: nat, zp: ByteFile, w: World, out: ByteFile) returns (r: Result<Dirent, ZipError>)
    requires za.Valid() && i < za.nentry && Savable(za.Model()) && za.entry[i].state != State.Deleted
    requires zp != out && out.pos == |out.data|
    modifies zp`pos, out
    ensures match SaveEntry(za.Model(), zp.data, w, i)
            case Err(e) => r == Err(e)
            case Ok((c, rec)) =>
              && r == Ok(c)
              && out.data == old(out.data) + RecordBytes(rec)
              && out.pos == |out.data|
  {
    hide FreshHeaders, CopiedHeaders, Produced, ParseDirent, WithStat, RecordBytes, Ahead, Coherent;
    var e, original := LookUp(za, i);
    if NewData(e) {
      r := NewOne(e, original, i, w, out);
    } else {
      r := CopyOne(e, original.value, zp, out);
    }
  }

  /** The branch of the save loop that writes new data. */
  method NewOne(e: Entry, original: Option<Dirent>, i: nat, w: World, out: ByteFile)
    returns (r: Result<Dirent, ZipError>)
    requires e.changes.filename.Some? || original.Some?
    requires DataChanged(e) ==> e.source.Some?
    requires out.pos == |out.data|
    modifies out
    ensures var (l, c) := FreshHeaders(e, original, w);
      match Produced(w, if DataChanged(e) then User(e.source.value) else Recompress(i), e.changes.compMethod)
      case Err(err) => r == Err(err)
      case Ok((data, st)) =>
        && r == Ok(WithStat(c, st, |data|))
        && out.data == old(out.data) + RecordBytes(Record(WithStat(l, st, |data|), data))
        && out.pos == |out.data|
  {
    var (l, c) := FreshHeaders(e, original, w);
    var feed := if DataChanged(e) then User(e.source.value) else Recompress(i);
    if !w.opens(feed) {
      return Err(ErSource);
    }
    r := AddData(feed, e.changes.compMethod, l, w, out);
    if r.Ok? {
      var d := r.value;
      r := Ok(c.(lastMod := d.lastMod, compMethod := d.compMethod, compSize := d.compSize, uncompSize := d.uncompSize,
                 crc := d.crc));
    }
  }

  /** The branch of the save loop that copies an entry from the old file. */
  method CopyOne(e: Entry, original: Dirent, zp: ByteFile, out: ByteFile) returns (r: Result<Dirent, ZipError>)
    requires zp != out && out.pos == |out.data|
    modifies zp`pos, out
    ensures match ParseDirent(Ahead(zp.data, original.offset), None, true)
            case Err(err) => r == Err(err)
            case Ok((local, n)) =>
              var (l, c) := CopiedHeaders(e, original, local);
              var data := Ahead(zp.data, original.offset + n);
              if |data| < c.compSize then r == Err(ErEof)
              else
                && r == Ok(c)
                && out.data == old(out.data) + RecordBytes(Record(l, data[..c.compSize]))
                && out.pos == |out.data|
  {
    hide ParseDirent, CopiedHeaders, HeaderBytes, Overwrite;
    zp.Seek(original.offset);
    var local, _, _ := ReadDirent(zp, None, 0, None, true);
    if local.Err? {
      return Err(local.error);
    }
    var (l, c) := CopiedHeaders(e, original, local.value);
    ghost var before := out.data;
    OverwriteAtEnd(before, HeaderBytes(l, true));
    WriteDirent(l, out, true);
    ghost var data := Ahead(zp.data, zp.pos);
    var error := CopyData(zp, c.compSize, out);
    if error.Some? {
      return Err(error.value);
    }
    assert before + HeaderBytes(l, true) + data[..c.compSize] == before + (HeaderBytes(l, true) + data[..c.compSize]);
    r := Ok(c);
  }

  datatype Outcome = Removed | NothingToDo | Saved | Failed(error: ZipError)

  /** The loop that lists the entries to keep. */
  method ListEntries(za: Zip, survivors: nat) returns (list: array<nat>)
    requires za.Valid() && survivors == Survivors(za.Model().entries)
    ensures fresh(list) && list.Length == survivors && list[..] == Live(za.Model().entries)
  {
    ghost var es := za.Model().entries;
    LiveCount(es);
    list := new nat[survivors];
    var i, j := 0, 0;
    while i < za.nentry
      invariant 0 <= i <= za.nentry && 0 <= j <= survivors
      invariant list[..j] == Live(es[..i])
    {
      LivePrefix(es, i);
      assert es[..i + 1][..i] == es[..i];
      if za.entry[i].state != State.Deleted {
        list[j] := i;
        j := j + 1;
      }
      i := i + 1;
    }
    assert es[..za.nentry] == es;
  }

  /** A prefix leaves room for its next live entry. */
  lemma {:induction false} LivePrefix(entries: seq<Entry>, i: nat)
    requires i < |entries|
    ensures |Live(entries[..i + 1])| <= |Live(entries)|
    decreases |entries|
  {
    if i == |entries| - 1 {
      assert entries[..i + 1] == entries;
    } else {
      var shorter := entries[..|entries| - 1];
      assert shorter[..i + 1] == entries[..i + 1];
      LivePrefix(shorter, i);
    }
  }

  lemma LiveFirst(entries: seq<Entry>)
    requires DeletedLast(entries)
    ensures Survivors(entries) <= |entries|
    ensures forall i | 0 <= i < Survivors(entries) :: entries[i].state != State.Deleted
  {
    LiveIsPrefix(entries);
    LiveCount(entries);
    AtMost(entries);
  }

  /** Directory and records of the entries that are kept. */
  function SavedParts(a: Arch, orig: seq<byte>, w: World): (r: Result<(seq<Dirent>, seq<Record>), ZipError>)
    requires Savable(a) && DeletedLast(a.entries)
    ensures r.Ok? ==> |r.value.0| == |r.value.1| == Survivors(a.entries)
  {
    LiveFirst(a.entries);
    SaveEntries(a, orig, w, Survivors(a.entries))
  }

  /** `zip_close` up to the renaming of the finished file: the new archive in `out`, or why there is none. Deleted
      entries must be at the end, where the loop's index into the new directory is right. */
  method Close(za: Zip, archiveComment: Field, zp: ByteFile, w: World, out: ByteFile) returns (r: Outcome)
    requires za.Valid() && zp != out && out.data == [] && out.pos == 0
    requires Savable(za.Model()) && DeletedLast(za.Model().entries)
    requires za.chFlags & ZIP_AFL_TORRENT == 0
    modifies zp`pos, out
    ensures var a := za.Model();
      var n := Survivors(a.entries);
      && (r == Removed <==> n == 0)
      && (r == NothingToDo <==> n > 0 && !Changed(a))
    ensures r.Saved? || r.Failed? ==>
      match SavedParts(za.Model(), zp.data, w)
      case Err(e) => r == Failed(e)
      case Ok((cs, rs)) => r == Saved && out.data == ArchiveBytes(cs, rs, NewComment(za.Model(), archiveComment))
  {
    hide SaveEntries, Live, EocdBytes, DirectoryBytes, Tiles, Overwrite, Coherent, Changed, Survivors, Savable;
    hide DeletedLast, Uncached;
    var changed, survivors := za.IsChanged();
    if survivors == 0 {
      return Removed;
    }
    if !changed {
      return NothingToDo;
    }
    r := SaveAll(za, survivors, archiveComment, zp, w, out);
  }

  /** `zip_close` once it is clear that there is something to save. */
  method SaveAll(za: Zip, survivors: nat, archiveComment: Field, zp: ByteFile, w: World, out: ByteFile)
    returns (r: Outcome)
    requires za.Valid() && zp != out && out.data == [] && out.pos == 0
    requires Savable(za.Model()) && DeletedLast(za.Model().entries) && survivors == Survivors(za.Model().entries)
    requires za.chFlags & ZIP_AFL_TORRENT == 0
    modifies zp`pos, out
    ensures match SavedParts(za.Model(), zp.data, w)
      case Err(e) => r == Failed(e)
      case Ok((cs, rs)) => r == Saved && out.data == ArchiveBytes(cs, rs, NewComment(za.Model(), archiveComment))
  {
    hide SaveEntries, Live, EocdBytes, DirectoryBytes, Tiles, Overwrite, Coherent, Changed, Survivors, Savable;
    hide DeletedLast, Uncached;
    var cd := new CentralDirectory(survivors);
    if za.flags & ZIP_AFL_TORRENT == 0 {
      cd.comment := if za.chComment.Some? then Kept(za.chComment.value) else archiveComment;
    }
    var list := ListEntries(za, survivors);
    ghost var a := za.Model();
    LiveFirst(a.entries);
    LiveIsPrefix(a.entries);
    assert forall j | 0 <= j < survivors :: list[j] == list[..][j];
    var error := SaveLoop(za, list, zp, w, out, cd);
    if error.Some? {
      return Failed(error.value);
    }
    WriteDirectory(cd, out);
    r := Saved;
  }

  /** `write_cdir` without the torrentzip part */
  method WriteDirectory(cd: CentralDirectory, out: ByteFile)
    requires out.pos == |out.data| && cd.nentry == |cd.entry|
    modifies cd`size, cd`offset, out
    ensures var dir := DirectoryBytes(cd.entry);
      out.data == old(out.data) + dir + EocdBytes(|cd.entry|, Low32(|dir|), Low32(|old(out.data)|), cd.comment)
  {
    hide EocdBytes, DirectoryBytes, Overwrite;
    ghost var dir := DirectoryBytes(cd.entry);
    ghost var end := EocdBytes(|cd.entry|, Low32(|dir|), Low32(out.pos), cd.comment);
    OverwriteAtEnd(out.data, dir + end);
    cd.Write(out);
    assert old(out.data) + (dir + end) == old(out.data) + dir + end;
  }

  /** The save loop: one round per entry that is kept. */
  method SaveLoop(za: Zip, list: array<nat>, zp: ByteFile, w: World, out: ByteFile, cd: CentralDirectory)
    returns (error: Error)
    requires za.Valid() && Savable(za.Model()) && DeletedLast(za.Model().entries)
    requires list.Length == Survivors(za.Model().entries) && forall j | 0 <= j < list.Length :: list[j] == j
    requires zp != out && out.data == [] && out.pos == 0
    requires cd.entry == [] && cd.nentry == list.Length
    modifies zp`pos, out, cd`entry
    ensures match SavedParts(za.Model(), zp.data, w)
            case Err(e) => error == Some(e)
            case Ok((cs, rs)) =>
              error == None && cd.entry == cs && out.data == Tiles(rs) && out.pos == |out.data|
  {
    hide SaveEntry, RecordBytes;
    ghost var a := za.Model();
    LiveFirst(a.entries);
    ghost var rs: seq<Record> := [];
    for j := 0 to list.Length
      invariant out.pos == |out.data| && |cd.entry| == j
      invariant SaveEntries(a, zp.data, w, j) == Ok((cd.entry, rs)) && out.data == Tiles(rs)
    {
      var i := list[j];
      ghost var saved := SaveEntry(a, zp.data, w, i);
      SaveEntriesStep(a, zp.data, w, j, list.Length);
      SaveEntriesNext(a, zp.data, w, j, cd.entry, rs);
      var offset := Low32(out.pos);
      var c := SaveOne(za, i, zp, w, out);
      if c.Err? {
        return Some(c.error);
      }
      cd.entry := cd.entry + [c.value.(offset := offset)];
      assert (rs + [saved.value.1])[..j] == rs;
      rs := rs + [saved.value.1];
    }
    error := None;
  }

  lemma SaveEntriesNext(a: Arch, orig: seq<byte>, w: World, j: nat, cs: seq<Dirent>, rs: seq<Record>)
    requires j < |a.entries| && Savable(a) && forall i | 0 <= i <= j :: a.entries[i].state != State.Deleted
    requires SaveEntries(a, orig, w, j) == Ok((cs, rs))
    ensures match SaveEntry(a, orig, w, j)
            case Err(e) => SaveEntries(a, orig, w, j + 1) == Err(e)
            case Ok((c, r)) => SaveEntries(a, orig, w, j + 1) == Ok((cs + [c.(offset := Low32(|Tiles(rs)|))], rs + [r]))
  {
  }

  /** Saving stops at the first entry that cannot be saved. */
  lemma {:induction false} SaveEntriesStep(a: Arch, orig: seq<byte>, w: World, j: nat, n: nat)
    requires j < n <= |a.entries| && Savable(a) && forall i | 0 <= i < n :: a.entries[i].state != State.Deleted
    ensures match SaveEntries(a, orig, w, j + 1)
            case Err(e) => SaveEntries(a, orig, w, n) == Err(e)
            case Ok(_) => true
    decreases n
  {
    hide SaveEntry;
    if j + 1 < n {
      SaveEntriesStep(a, orig, w, j, n - 1);
    }
  }
}
