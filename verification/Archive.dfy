/** `struct zip` as the library edits it: the entry array grows and shrinks in place, and the directory caches what
    it found out about names. */
module Archives {
  import opened Bytes
  import opened Dirents
  import opened Encodings
  import opened ArchiveModel

  /** A directory entry with its two caches: the guessed encoding, and the converted name. */
  datatype Cached = Cached(d: Dirent, fnType: Option<Encoding>, converted: Option<seq<byte>>)

  /** What is in the caches is what would be computed again. */
  predicate Coherent(c: Cached) {
    && (c.fnType.Some? ==> c.fnType.value == Guess(c.d.filename))
    && (c.converted.Some? ==> c.converted.value == Cp437ToUtf8(c.d.filename))
  }

  function Uncached(cs: seq<Cached>): seq<Dirent> {
    seq(|cs|, i requires 0 <= i < |cs| => cs[i].d)
  }

  lemma CacheInvisible(cs: seq<Cached>, i: nat, c: Cached)
    requires i < |cs| && c.d == cs[i].d
    ensures Uncached(cs[i := c]) == Uncached(cs)
  {
  }

  lemma FailedName(a: Arch, i: nat, name: CString)
    requires SetName(a, i, name).1.Some?
    ensures SetName(a, i, name).0 == a
  {
    hide Locate, Guess, RawComment;
  }

  /** All entries before number i are new again. */
  ghost function ResetUpTo(a: Arch, i: nat): Arch
    requires i <= |a.entries|
  {
    a.(entries := seq(i, _ => NEW_ENTRY) + a.entries[i..])
  }

  lemma ResetNext(a: Arch, i: nat)
    requires i < |a.entries|
    ensures Unchange(ResetUpTo(a, i), i, true) == (ResetUpTo(a, i + 1), None)
  {
    hide OriginalNameTaken;
    assert ResetUpTo(a, i).entries[i := NEW_ENTRY] == ResetUpTo(a, i + 1).entries;
  }

  lemma PutTwice(a: Arch, i: nat, e: Entry, f: Entry)
    requires i < |a.entries|
    ensures WithEntry(WithEntry(a, i, e), i, f) == WithEntry(a, i, f)
  {
    assert a.entries[i := e][i := f] == a.entries[i := f];
  }

  class Zip {
    const flags: bv32
    var chFlags: bv32
    var chComment: Option<seq<byte>>
    const cdir: array?<Cached>
    var entry: array<Entry>
    var nentry: nat
    var nentryAlloc: nat

    ghost predicate Valid()
      reads this, cdir, entry
    {
      && nentry <= nentryAlloc <= entry.Length
      && (cdir != null ==> cdir.Length <= nentry && forall i | 0 <= i < cdir.Length :: Coherent(cdir[i]))
    }

    /** The archive as a value; the caches do not show. */
    ghost function Model(): Arch
      requires Valid()
      reads this, cdir, entry
    {
      Arch(flags, chFlags, chComment, if cdir == null then None else Some(Uncached(cdir[..])), entry[..nentry])
    }

    ghost function Repr(): set<object?>
      reads this
    {
      {this, entry} + if cdir == null then {} else {cdir}
    }

    /** The archive part of `_zip_open`: a fresh entry for every entry of the directory. */
    constructor (directory: Option<seq<Dirent>>, flags: bv32)
      ensures Valid() && fresh(Repr())
      ensures JustOpened(Model()) && Model().cdir == directory && Model().flags == flags
    {
      this.flags, chFlags, chComment := flags, flags, None;
      var entries := if directory.Some? then directory.value else [];
      if directory.Some? {
        cdir := new Cached[|entries|](i requires 0 <= i < |entries| => Cached(entries[i], None, None));
      } else {
        cdir := null;
      }
      entry := new Entry[|entries|](_ => NEW_ENTRY);
      nentry, nentryAlloc := 0, 0;
      new;
      var n := |entries|;
      while nentry < n
        invariant nentry <= n && nentry <= nentryAlloc && fresh(entry) && (nentryAlloc <= entry.Length)
        invariant chFlags == flags && chComment == None && this.flags == flags
        invariant cdir != null ==> forall i | 0 <= i < cdir.Length :: cdir[i] == Cached(entries[i], None, None)
        invariant forall i | 0 <= i < nentry :: entry[i] == NEW_ENTRY
        decreases n - nentry
      {
        EntryNew();
      }
      if cdir != null {
        assert Uncached(cdir[..]) == entries;
      }
    }

    /** `_zip_entry_new`: one entry more, in an array that is enlarged by 16 when it gets full. */
    method EntryNew()
      requires nentry <= nentryAlloc <= entry.Length
      modifies this`entry, this`nentry, this`nentryAlloc, entry
      ensures nentry == old(nentry) + 1 <= nentryAlloc <= entry.Length
      ensures entry == old(entry) || fresh(entry)
      ensures entry[..nentry] == old(entry[..nentry]) + [NEW_ENTRY]
    {
      if nentry + 1 >= nentryAlloc {
        nentryAlloc := nentryAlloc + 16;
        var larger := new Entry[nentryAlloc](_ => NEW_ENTRY);
        forall i | 0 <= i < nentry {
          larger[i] := entry[i];
        }
        assert larger[..nentry] == entry[..nentry];
        entry := larger;
      }
      entry[nentry] := NEW_ENTRY;
      nentry := nentry + 1;
    }

    /** `_zip_get_name`, filling the caches on the way. */
    method GetName(idx: nat, fl: NameFlags) returns (r: Result<seq<byte>, ZipError>)
      requires Valid()
      modifies if cdir == null then {} else {cdir}
      ensures Valid() && Model() == old(Model())
      ensures r == NameOf(Model(), idx, fl)
    {
      hide Cp437ToUtf8, HasBit;
      if idx >= nentry {
        return Err(ErInval);
      }
      if !fl.original {
        if entry[idx].state == State.Deleted {
          return Err(ErDeleted);
        }
        if entry[idx].changes.filename.Some? {
          return Ok(entry[idx].changes.filename.value);
        }
      }
      if cdir == null || idx >= cdir.Length {
        return Err(ErInval);
      }
      var raw: seq<byte> := cdir[idx].d.filename;
      if fl.raw || HasBit(cdir[idx].d.bitflags, ENCODING_UTF_8) {
        return Ok(raw);
      }
      raw := GuessedName(idx, fl.strict);
      r := Ok(raw);
    }

    /** The tail of `_zip_get_name`: the encoding is guessed once, and a converted name is kept. */
    method GuessedName(idx: nat, strict: bool) returns (name: seq<byte>)
      requires Valid() && cdir != null && idx < cdir.Length
      modifies cdir
      ensures Valid() && Model() == old(Model())
      ensures var raw := old(cdir[idx].d.filename);
        name == if (strict && Guess(raw) != Ascii) || Guess(raw) == Cp437 then Cp437ToUtf8(raw) else raw
    {
      assert Guess([]) == Ascii;
      hide Guess, Cp437ToUtf8;
      var raw := cdir[idx].d.filename;
      if cdir[idx].fnType == None {
        var guess := GuessEncoding(raw);
        CacheInvisible(cdir[..], idx, cdir[idx].(fnType := Some(guess)));
        cdir[idx] := cdir[idx].(fnType := Some(guess));
      }
      if (strict && cdir[idx].fnType != Some(Ascii)) || cdir[idx].fnType == Some(Cp437) {
        if cdir[idx].converted == None {
          // characters are taken to be unsigned; Encodings.InTableIff says when that matters
          var converted := Convert(raw, false);
          CacheInvisible(cdir[..], idx, cdir[idx].(converted := converted));
          cdir[idx] := cdir[idx].(converted := converted);
        }
        return cdir[idx].converted.value;
      }
      name := raw;
    }

    /** `_zip_name_locate`: the first entry with a matching name. */
    method NameLocate(name: seq<byte>, fl: NameFlags) returns (r: Option<nat>)
      requires Valid()
      modifies if cdir == null then {} else {cdir}
      ensures Valid() && Model() == old(Model())
      ensures r == Locate(Model(), name, fl)
    {
      if fl.original && cdir == null {
        return None;
      }
      var n := if fl.original then cdir.Length else nentry;
      var i := 0;
      while i < n
        invariant 0 <= i <= n
        invariant Valid() && Model() == old(Model())
        invariant Locate(Model(), name, fl) == LocateFrom(Model(), i, name, fl)
        decreases n - i
      {
        var fn := GetName(i, fl);
        if fn.Ok? {
          if SameName(name, if fl.noDir then BaseName(fn.value) else fn.value, fl.noCase) {
            return Some(i);
          }
        }
        i := i + 1;
      }
      r := None;
    }

    /** What an entry's comment is now, as `zip_get_file_comment` returns it with ZIP_FL_NAME_RAW. */
    method GetRawComment(idx: nat) returns (r: Field)
      requires Valid() && idx < nentry
      ensures r == RawComment(Model(), idx)
    {
      if entry[idx].changes.comment.Some? {
        return entry[idx].changes.comment.value;
      }
      if cdir == null || idx >= cdir.Length {
        return [];
      }
      r := cdir[idx].d.comment;
    }

    /** Replaces one entry. */
    method Put(idx: nat, e: Entry)
      requires Valid() && idx < nentry
      modifies entry
      ensures Valid() && Model() == WithEntry(old(Model()), idx, e)
    {
      entry[idx] := e;
    }

    /** `_zip_set_name` */
    method SetEntryName(idx: nat, name: CString) returns (error: Error)
      requires Valid()
      modifies entry, if cdir == null then {} else {cdir}
      ensures Valid() && (Model(), error) == SetName(old(Model()), idx, name)
    {
      if idx >= nentry {
        return Some(ErInval);
      }
      var enc := GuessEncoding(name);
      if enc == Cp437 {
        return Some(ErInval);
      }
      var i := NameLocate(name, DEFAULT);
      if i.Some? && i.value != idx {
        return Some(ErExists);
      }
      if i == Some(idx) {
        return None;
      }
      var com := GetRawComment(idx);
      var comEnc := GuessEncoding(com);
      if comEnc == Cp437 && enc == Utf8 {
        return Some(ErEncMismatch);
      }
      var e := entry[idx];
      var state := if e.state == Unchanged then Renamed else e.state;
      Put(idx, e.(state := state, changes := e.changes.(filename := Some(name))));
      error := None;
    }

    /** `_zip_unchange_data` */
    method UnchangeEntryData(idx: nat)
      requires Valid() && idx < nentry
      modifies entry
      ensures Valid() && Model() == WithEntry(old(Model()), idx, UnchangeData(old(Model()).entries[idx]))
    {
      var e := entry[idx];
      if e.source.Some? {
        e := e.(source := None);
      }
      Put(idx, e.(state := if e.changes.filename.Some? then Renamed else Unchanged));
    }

    /** The tail of `_zip_replace`: new data for an entry whose name is settled. */
    method SetSource(idx: nat, source: DataSource)
      requires Valid() && idx < nentry
      modifies entry
      ensures Valid() && Model() == WithSource(old(Model()), idx, source)
    {
      UnchangeEntryData(idx);
      var state := if cdir == null || idx >= cdir.Length then Added else Replaced;
      Put(idx, entry[idx].(state := state, source := Some(source)));
    }

    /** The head of `_zip_replace` for a new entry. */
    method AppendFilled() returns (idx: nat)
      requires Valid()
      modifies Repr()
      ensures Valid() && fresh(Repr() - old(Repr())) && nentry == old(nentry) + 1
      ensures idx == old(nentry) && Model() == old(Model()).(entries := old(Model()).entries + [FILLED_ENTRY])
    {
      EntryNew();
      idx := nentry - 1;
      Put(idx, entry[idx].(changes := entry[idx].changes.(compMethod := Some(ZIP_CM_DEFLATE))));
    }

    /** `zip_add`, that is `_zip_replace` with no index: the new entry goes away again if its name is refused. */
    method AddFile(name: CString, source: DataSource) returns (r: Result<nat, ZipError>)
      requires Valid()
      modifies Repr()
      ensures Valid() && fresh(Repr() - old(Repr()))
      ensures (Model(), r) == Add(old(Model()), name, source)
    {
      if chFlags & ZIP_AFL_RDONLY != 0 {
        return Err(ErRdOnly);
      }
      ghost var a := Model();
      var previous := nentry;
      var idx := AppendFilled();
      var error := SetEntryName(idx, name);
      if error.Some? {
        FailedName(a.(entries := a.entries + [FILLED_ENTRY]), idx, name);
        nentry := previous;
        assert entry[..nentry] == a.entries;
        return Err(error.value);
      }
      SetSource(idx, source);
      r := Ok(idx);
    }

    /** `zip_replace` */
    method ReplaceFile(idx: nat, source: DataSource) returns (error: Error)
      requires Valid()
      modifies entry
      ensures Valid() && (Model(), error) == Replace(old(Model()), idx, source)
    {
      if idx >= nentry {
        return Some(ErInval);
      }
      if chFlags & ZIP_AFL_RDONLY != 0 {
        return Some(ErRdOnly);
      }
      SetSource(idx, source);
      error := None;
    }

    /** `_zip_unchange` */
    method UnchangeFile(idx: nat, allowDuplicates: bool) returns (error: Error)
      requires Valid()
      modifies entry, if cdir == null then {} else {cdir}
      ensures Valid() && (Model(), error) == Unchange(old(Model()), idx, allowDuplicates)
    {
      if idx >= nentry {
        return Some(ErInval);
      }
      hide NameOf, Locate;
      if entry[idx].changes.filename.Some? && !allowDuplicates {
        var original := GetName(idx, ORIGINAL);
        if original.Ok? {
          var i := NameLocate(original.value, DEFAULT);
          if i.Some? && i.value != idx {
            return Some(ErExists);
          }
        }
      }
      ghost var a := Model();
      Put(idx, entry[idx].(changes := NO_CHANGES));
      ghost var cleared := entry[idx];
      UnchangeEntryData(idx);
      PutTwice(a, idx, cleared, NEW_ENTRY);
      error := None;
    }

    /** `zip_unchange_archive` */
    method UnchangeArchiveSettings()
      requires Valid()
      modifies this`chComment, this`chFlags
      ensures Valid() && Model() == UnchangeArchive(old(Model()))
    {
      chComment := None;
      chFlags := flags;
    }

    /** `zip_unchange_all` */
    method UnchangeEverything() returns (failed: bool)
      requires Valid()
      modifies this`chComment, this`chFlags, entry, if cdir == null then {} else {cdir}
      ensures Valid() && Model() == UnchangeAll(old(Model())) && !failed
    {
      failed := false;
      ghost var a := Model();
      var i := 0;
      assert a.entries[0..] == a.entries;
      while i < nentry
        invariant 0 <= i <= nentry == |a.entries| && Valid() && !failed
        invariant Model() == ResetUpTo(a, i)
      {
        ResetNext(a, i);
        var error := UnchangeFile(i, true);
        failed := failed || error.Some?;
        i := i + 1;
      }
      UnchangeArchiveSettings();
      assert ResetUpTo(a, i).entries == UnchangeAll(a).entries;
    }

    /** `zip_delete` */
    method DeleteFile(idx: nat) returns (error: Error)
      requires Valid()
      modifies entry, if cdir == null then {} else {cdir}
      ensures Valid() && (Model(), error) == Delete(old(Model()), idx)
    {
      if idx >= nentry {
        return Some(ErInval);
      }
      if chFlags & ZIP_AFL_RDONLY != 0 {
        return Some(ErRdOnly);
      }
      ghost var a := Model();
      error := UnchangeFile(idx, true);
      if error.Some? {
        return;
      }
      PutTwice(a, idx, NEW_ENTRY, NEW_ENTRY.(state := State.Deleted));
      Put(idx, entry[idx].(state := State.Deleted));
    }

    /** `zip_rename` */
    method RenameFile(idx: nat, name: CString) returns (error: Error)
      requires Valid()
      modifies entry, if cdir == null then {} else {cdir}
      ensures Valid() && (Model(), error) == Rename(old(Model()), idx, name)
    {
      if idx >= nentry || |name| > 0xFFFF {
        return Some(ErInval);
      }
      if chFlags & ZIP_AFL_RDONLY != 0 {
        return Some(ErRdOnly);
      }
      var current := GetName(idx, DEFAULT);
      if current.Err? {
        return Some(current.error);
      }
      if IsDir(name) != IsDir(current.value) {
        return Some(ErInval);
      }
      error := SetEntryName(idx, name);
    }

    /** `_zip_changed`: whether there is anything to save, and how many entries would be left. */
    method IsChanged() returns (changed: bool, survivors: nat)
      requires Valid()
      ensures changed == Changed(Model())
      ensures survivors == Survivors(Model().entries)
    {
      changed := chComment.Some? || chFlags != flags;
      survivors := 0;
      ghost var es := entry[..nentry];
      var i := 0;
      while i < nentry
        invariant 0 <= i <= nentry
        invariant survivors == Survivors(es[..i])
        invariant changed <==> (chComment.Some? || chFlags != flags
          || exists k | 0 <= k < i :: es[k].state != Unchanged || es[k].changes != NO_CHANGES)
      {
        if entry[i].state != Unchanged || entry[i].changes != NO_CHANGES {
          changed := true;
        }
        assert es[..i + 1][..i] == es[..i];
        if entry[i].state != State.Deleted {
          survivors := survivors + 1;
        }
        i := i + 1;
      }
      assert es[..nentry] == es;
    }
  }
}
