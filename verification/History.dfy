/** From opening an archive over any calls to saving and opening it again. */
module Histories {
  import opened Bytes
  import opened ByteFiles
  import opened Dirents
  import opened Cdirs
  import opened Encodings
  import opened ArchiveModel
  import opened SaveModel
  import opened Closing
  import opened Reopening
  import opened FindCdir
  import opened SaveAndOpen
  import opened Pending
  import opened Contents

  // ----- deleted entries stay at the end

  /** When an add is refused; a new entry has no comment that could disagree with its name. */
  lemma AddRefused(a: Arch, name: CString, source: DataSource)
    requires a.cdir.Some? ==> |a.cdir.value| <= |a.entries|
    ensures var (b, r) := Add(a, name, source);
      && (r.Err? <==> ReadOnly(a) || Guess(name) == Cp437 || exists i :: 0 <= i < |a.entries| && HasName(a, i, name))
      && (r.Ok? ==> |b.entries| == |a.entries| + 1 && b.entries[..|a.entries|] == a.entries
                    && b.entries[|a.entries|].state == Added)
  {
    hide Guess, Locate, DisplayName, RawComment, Distinct;
    var n := |a.entries|;
    var grown := a.(entries := a.entries + [FILLED_ENTRY]);
    LocateFinds(grown, name);
    assert NameOf(grown, n, DEFAULT).Err?;
    assert forall i | 0 <= i < n :: HasName(grown, i, name) <==> HasName(a, i, name);
    NoCommentYet(grown, n);
    if Add(a, name, source).1.Ok? {
      assert Add(a, name, source).0.entries[..n] == a.entries;
    }
  }

  lemma NoCommentYet(grown: Arch, n: nat)
    requires n < |grown.entries| && grown.entries[n] == FILLED_ENTRY && Original(grown, n).None?
    ensures Guess(RawComment(grown, n)) == Ascii
  {
  }

  /** No entry from i on is live, or none before i is deleted. */
  predicate AllDeleted(entries: seq<Entry>, from: nat) {
    forall j | from <= j < |entries| :: entries[j].state == State.Deleted
  }

  predicate NoneDeleted(entries: seq<Entry>, to: nat) {
    forall j | 0 <= j < to && j < |entries| :: entries[j].state != State.Deleted
  }

  /** Calls after which a deleted entry precedes a live one: deleting an entry with a live one behind it, and bringing
      back or adding one with a deleted one before it. */
  predicate BreaksOrder(a: Arch, op: Op) {
    match op
    case OpDelete(i) => i < |a.entries| && !ReadOnly(a) && !AllDeleted(a.entries, i + 1)
    case OpUnchange(i) =>
      i < |a.entries| && a.entries[i].state == State.Deleted && !NoneDeleted(a.entries, i)
    case OpReplace(i, _) =>
      i < |a.entries| && !ReadOnly(a) && a.entries[i].state == State.Deleted && !NoneDeleted(a.entries, i)
    case OpAdd(name, _) =>
      && !ReadOnly(a) && Guess(name) != Cp437 && !(exists i :: 0 <= i < |a.entries| && HasName(a, i, name))
      && !NoneDeleted(a.entries, |a.entries|)
    case _ => false
  }

  /** From an archive with its deleted entries at the end, a call leaves them there exactly when it is none of these. */
  lemma StepDeletedLast(a: Arch, op: Op)
    requires Consistent(a) && DeletedLast(a.entries)
    ensures DeletedLast(Step(a, op).entries) <==> !BreaksOrder(a, op)
  {
    hide Add, Replace, Unchange, Delete, DeletedLast, Guess, HasName, AllDeleted, NoneDeleted, Consistent;
    match op {
      case OpAdd(name, source) => AddKeepsOrder(a, name, source);
      case OpDelete(i) => DeleteKeepsOrder(a, i);
      case OpUnchange(i) => UnchangeKeepsOrder(a, i);
      case OpReplace(i, source) => ReplaceKeepsOrder(a, i, source);
      case OpUnchangeAll => AllBack(a);
      case _ => OtherStates(a, op);
    }
  }

  /** Entries whose deletion is the same in both are in order in both. */
  lemma SameOrder(s: seq<Entry>, t: seq<Entry>)
    requires |s| == |t| && forall i | 0 <= i < |s| :: (s[i].state == State.Deleted <==> t[i].state == State.Deleted)
    ensures DeletedLast(s) <==> DeletedLast(t)
  {
  }

  lemma OtherStates(a: Arch, op: Op)
    requires Consistent(a) && !op.OpAdd? && !op.OpDelete? && !op.OpUnchange? && !op.OpReplace? && !op.OpUnchangeAll?
    ensures DeletedLast(Step(a, op).entries) <==> DeletedLast(a.entries)
  {
    hide DeletedLast, Locate, Guess, RawComment, Changed, Kept, IsDir, NameOf, Consistent;
    if op.OpRename? {
      Named(a, op.i);
    }
    SameOrder(Step(a, op).entries, a.entries);
  }

  lemma AllBack(a: Arch)
    ensures DeletedLast(UnchangeAll(a).entries)
  {
  }

  lemma AddKeepsOrder(a: Arch, name: CString, source: DataSource)
    requires Consistent(a) && DeletedLast(a.entries)
    ensures DeletedLast(Add(a, name, source).0.entries) <==> !BreaksOrder(a, OpAdd(name, source))
  {
    hide Add, Guess, HasName;
    AddRefused(a, name, source);
    var (b, r) := Add(a, name, source);
    if r.Ok? {
      assert forall i | 0 <= i < |a.entries| :: b.entries[i] == a.entries[i] by {
        assert forall i | 0 <= i < |a.entries| :: b.entries[..|a.entries|][i] == b.entries[i];
      }
      LastLive(a.entries, b.entries);
    } else {
      FailedCallChangesNothing(a, OpAdd(name, source));
    }
  }

  lemma LastLive(s: seq<Entry>, t: seq<Entry>)
    requires DeletedLast(s) && |t| == |s| + 1 && t[|s|].state != State.Deleted
    requires forall i | 0 <= i < |s| :: t[i] == s[i]
    ensures DeletedLast(t) <==> NoneDeleted(s, |s|)
  {
    if NoneDeleted(s, |s|) {
      assert forall i | 0 <= i < |s| :: t[i].state != State.Deleted;
    } else {
      var i :| 0 <= i < |s| && s[i].state == State.Deleted;
      assert t[i].state == State.Deleted;
    }
  }

  lemma DeleteKeepsOrder(a: Arch, i: nat)
    requires DeletedLast(a.entries)
    ensures DeletedLast(Delete(a, i).0.entries) <==> !BreaksOrder(a, OpDelete(i))
  {
    if i < |a.entries| && !ReadOnly(a) {
      var t := Delete(a, i).0.entries;
      assert t[i].state == State.Deleted && forall k | 0 <= k < |t| && k != i :: t[k] == a.entries[k];
    }
  }

  /** An entry that is live now. */
  lemma Revived(s: seq<Entry>, t: seq<Entry>, i: nat)
    requires DeletedLast(s) && |t| == |s| && i < |s| && t[i].state != State.Deleted
    requires forall k | 0 <= k < |s| && k != i :: t[k] == s[k]
    ensures DeletedLast(t) <==> !(s[i].state == State.Deleted && !NoneDeleted(s, i))
  {
    if s[i].state == State.Deleted && !NoneDeleted(s, i) {
      var k :| 0 <= k < i && s[k].state == State.Deleted;
      assert t[k].state == State.Deleted;
    }
  }

  lemma UnchangeKeepsOrder(a: Arch, i: nat)
    requires Consistent(a) && DeletedLast(a.entries)
    ensures DeletedLast(Unchange(a, i, false).0.entries) <==> !BreaksOrder(a, OpUnchange(i))
  {
    hide OriginalNameTaken, DeletedLast, NoneDeleted;
    if i < |a.entries| {
      var b := Unchange(a, i, false).0;
      assert EntryOk(a, i);
      if b != a {
        Revived(a.entries, b.entries, i);
      }
    }
  }

  lemma ReplaceKeepsOrder(a: Arch, i: nat, source: DataSource)
    requires DeletedLast(a.entries)
    ensures DeletedLast(Replace(a, i, source).0.entries) <==> !BreaksOrder(a, OpReplace(i, source))
  {
    hide DeletedLast, NoneDeleted;
    if i < |a.entries| && !ReadOnly(a) {
      Revived(a.entries, Replace(a, i, source).0.entries, i);
    }
  }

  // ----- histories

  predicate NeverBreaksOrder(a: Arch, ops: seq<Op>)
    decreases |ops|
  {
    ops == [] || (!BreaksOrder(a, ops[0]) && NeverBreaksOrder(Step(a, ops[0]), ops[1..]))
  }

  lemma {:induction false} RunDeletedLast(a: Arch, ops: seq<Op>)
    requires Consistent(a) && DeletedLast(a.entries) && NeverBreaksOrder(a, ops)
    ensures DeletedLast(Run(a, ops).entries)
    decreases |ops|
  {
    if ops != [] {
      hide BreaksOrder, DeletedLast, Consistent;
      StepDeletedLast(a, ops[0]);
      StepConsistent(a, ops[0]);
      RunDeletedLast(Step(a, ops[0]), ops[1..]);
    }
  }

  /** What saving asks for holds after every history that neither loses a name nor brings deleted entries forward. */
  lemma HistoryCanBeSaved(a: Arch, ops: seq<Op>)
    requires JustOpened(a) && NeverLosesName(a, ops) && NeverBreaksOrder(a, ops)
    ensures var b := Run(a, ops); Consistent(b) && Savable(b) && DeletedLast(b.entries)
  {
    hide NeverLosesName, NeverBreaksOrder, DeletedLast, Consistent, Savable, Run;
    OpenedSavable(a);
    RunConsistent(a, ops);
    RunSavable(a, ops);
    RunDeletedLast(a, ops);
  }

  // ----- saved and opened again

  /** The bytes that entry j stands for: what its source produces, or what the old archive has. */
  function DataOf(a: Arch, orig: seq<byte>, w: World, j: nat): Option<seq<byte>>
    requires j < |a.entries| && Savable(a) && a.entries[j].state != State.Deleted
  {
    var e := a.entries[j];
    if NewData(e) then
      match Produced(w, if DataChanged(e) then User(e.source.value) else Recompress(j), e.changes.compMethod)
      case Err(_) => None
      case Ok((data, _)) => Some(data)
    else
      var was := Original(a, j).value;
      match DataOffset(orig, was)
      case Err(_) => None
      case Ok(p) => if p + was.compSize > |orig| then None else Some(orig[p..p + was.compSize])
  }

  /** Entry d of the file `data` is entry j of a: its data is found whole, and its name is shown as before unless the
      label of an old name was not kept. */
  predicate ComesBack(a: Arch, orig: seq<byte>, w: World, j: nat, data: seq<byte>, d: Dirent)
    requires j < |a.entries| && Savable(a) && a.entries[j].state != State.Deleted
  {
    && (match DataOffset(data, d)
        case Err(_) => false
        case Ok(q) => q + d.compSize <= |data| && DataOf(a, orig, w, j) == Some(data[q..q + d.compSize]))
    && (Original(a, j).None? ==> a.entries[j].changes.filename.Some?)
    && (Ok(DisplayName(d, DEFAULT)) == NameOf(a, j, DEFAULT)
        <==> a.entries[j].changes.filename.Some? || LabelKept(a, orig, j))
  }

  /** What opening finds in the file that saving a makes, if that is below 4 GB and has one end record: the saved
      directory, if and only if it can be read back; and behind each of its entries, what was kept. */
  predicate Reopens(a: Arch, orig: seq<byte>, w: World, comment: Field)
    requires Savable(a) && DeletedLast(a.entries)
  {
    match SavedParts(a, orig, w)
    case Err(_) => true
    case Ok((cs, rs)) =>
      LiveFirst(a.entries);
      var data, e := ArchiveBytes(cs, rs, comment), |Tiles(rs)| + |DirectoryBytes(cs)|;
      e < 0x1_0000_0000 && OneEndRecord(data, e) ==>
        && |cs| == Survivors(a.entries)
        && (Find(data, false) == Some(Cdir(cs, |DirectoryBytes(cs)|, |Tiles(rs)|, comment))
            <==> CountReadable(|cs|) && forall d <- cs :: Fits(d))
        && forall j | 0 <= j < |cs| :: ComesBack(a, orig, w, j, data, cs[j])
  }

  lemma SavedReopens(a: Arch, orig: seq<byte>, w: World, comment: Field)
    requires Consistent(a) && Savable(a) && DeletedLast(a.entries) && |orig| < 0x1_0000_0000
    ensures Reopens(a, orig, w, comment)
  {
    hide SaveEntries, ArchiveBytes, Tiles, DirectoryBytes, Find, OneEndRecord, Fits, CountReadable, ComesBack;
    hide Consistent, Savable, DeletedLast, Survivors;
    LiveFirst(a.entries);
    var n := Survivors(a.entries);
    if SavedParts(a, orig, w).Ok? {
      var (cs, rs) := SavedParts(a, orig, w).value;
      if |Tiles(rs)| + |DirectoryBytes(cs)| < 0x1_0000_0000
        && OneEndRecord(ArchiveBytes(cs, rs, comment), |Tiles(rs)| + |DirectoryBytes(cs)|) {
        SavedArchiveFound(cs, rs, comment);
        forall j | 0 <= j < |cs|
          ensures ComesBack(a, orig, w, j, ArchiveBytes(cs, rs, comment), cs[j])
        {
          EntryComesBack(a, orig, w, n, comment, j);
        }
      }
    }
  }

  lemma EntryComesBack(a: Arch, orig: seq<byte>, w: World, n: nat, comment: Field, j: nat)
    requires j < n <= |a.entries| && Consistent(a) && Savable(a) && |orig| < 0x1_0000_0000
    requires (forall i | 0 <= i < n :: a.entries[i].state != State.Deleted) && SaveEntries(a, orig, w, n).Ok?
    requires |Tiles(SaveEntries(a, orig, w, n).value.1)| < 0x1_0000_0000
    ensures var (cs, rs) := SaveEntries(a, orig, w, n).value;
      ComesBack(a, orig, w, j, ArchiveBytes(cs, rs, comment), cs[j])
  {
    hide SaveEntries, ArchiveBytes, Tiles, DataOffset, Produced, NameOf, DisplayName, LabelKept, Consistent;
    VisibleNameSurvives(a, orig, w, n, j);
    if NewData(a.entries[j]) {
      NewDataSurvives(a, orig, w, n, comment, j);
    } else {
      CopiedDataSurvives(a, orig, w, n, comment, j);
    }
  }

  /** From opening over any such history to saving and opening again. */
  lemma HistoryReopens(a: Arch, ops: seq<Op>, orig: seq<byte>, w: World, comment: Field)
    requires JustOpened(a) && NeverLosesName(a, ops) && NeverBreaksOrder(a, ops) && |orig| < 0x1_0000_0000
    ensures var b := Run(a, ops); Savable(b) && DeletedLast(b.entries) && Reopens(b, orig, w, comment)
  {
    hide JustOpened, NeverLosesName, NeverBreaksOrder, Reopens, Consistent, Savable, DeletedLast;
    HistoryCanBeSaved(a, ops);
    SavedReopens(Run(a, ops), orig, w, comment);
  }

  /** What the last calls that concern entry i have set. */
  function LastChanges(a: Arch, ops: seq<Op>, i: nat): Changes {
    Changes(LastMethod(a, ops, i), LastName(a, ops, i), LastComment(a, ops, i), LastExtra(a, ops, i))
  }

  /** After any history, each entry of the saved file, read back from its bytes, is what the calls since opening made
      of it: its data decodes to the clear bytes of the last source, or to the old ones, and its headers have what was
      set since it was last started over. */
  lemma EntryAsLastSaid(a: Arch, ops: seq<Op>, orig: seq<byte>, w: World, c: Codec, base: Feed -> Passed,
                        comment: Field, checkCons: bool, j: nat)
    requires JustOpened(a) && NeverLosesName(a, ops) && NeverBreaksOrder(a, ops) && |orig| < 0x1_0000_0000
    requires Faithful(w, c, base) && ReadsOld(a, orig, w, c, base)
    ensures var b := Run(a, ops);
      && Savable(b) && DeletedLast(b.entries)
      && match SavedParts(b, orig, w)
         case Err(_) => true
         case Ok((cs, rs)) =>
           var data, e := ArchiveBytes(cs, rs, comment), |Tiles(rs)| + |DirectoryBytes(cs)|;
           e < 0x1_0000_0000 && CountReadable(|cs|) && j < |cs| ==>
             match HeadersIn(data, e, checkCons, j)
             case None => false
             case Some((l, d)) =>
               MadeOf(LastChanges(a, ops, j), LastSource(a, ops, j), Original(a, j), OldClear(a, orig, c, j),
                      c, base, data, l, d)
  {
    hide SaveEntries, ArchiveBytes, Tiles, DirectoryBytes, HeadersIn, Run, JustOpened, Survivors, Consistent, Savable;
    hide Faithful, ReadsOld, LastSource, LastName, LastComment, LastExtra, LastMethod, IsDeleted, MadeOf, DeletedLast;
    hide NeverLosesName, NeverBreaksOrder, OldClear, CountReadable;
    var b := Run(a, ops);
    HistoryCanBeSaved(a, ops);
    LiveFirst(b.entries);
    RunConsistent(a, ops);
    SameOld(a, b, orig, w, c, base);
    LastCallsCount(a, ops, j);
    if SavedParts(b, orig, w).Ok? {
      var (cs, rs) := SavedParts(b, orig, w).value;
      if |Tiles(rs)| + |DirectoryBytes(cs)| < 0x1_0000_0000 && CountReadable(|cs|) && j < |cs| {
        SavedAsMade(b, orig, w, c, base, Survivors(b.entries), comment, checkCons, j);
      }
    }
  }

  /** The old archive is the same for all that the calls make. */
  lemma SameOld(a: Arch, b: Arch, orig: seq<byte>, w: World, c: Codec, base: Feed -> Passed)
    requires a.cdir == b.cdir
    ensures forall i :: OldClear(a, orig, c, i) == OldClear(b, orig, c, i) && Original(a, i) == Original(b, i)
    ensures ReadsOld(a, orig, w, c, base) ==> ReadsOld(b, orig, w, c, base)
  {
    hide DataOffset;
  }

  /** Reading the directory of the file that saving b makes finds this comment. */
  predicate HasComment(b: Arch, orig: seq<byte>, w: World, previous: Field, checkCons: bool, comment: seq<byte>)
    requires Savable(b) && DeletedLast(b.entries)
  {
    match SavedParts(b, orig, w)
    case Err(_) => true
    case Ok((cs, rs)) =>
      var e := |Tiles(rs)| + |DirectoryBytes(cs)|;
      e < 0x1_0000_0000 ==>
        match ReadCdirAt(ArchiveBytes(cs, rs, NewComment(b, previous)), e, checkCons)
        case Err(_) => false
        case Ok(cd) => cd.comment == comment
  }

  lemma SavedComment(b: Arch, orig: seq<byte>, w: World, previous: Field, checkCons: bool)
    requires Savable(b) && DeletedLast(b.entries)
    ensures HasComment(b, orig, w, previous, checkCons, NewComment(b, previous))
  {
    hide SaveEntries, ArchiveBytes, Tiles, DirectoryBytes, Survivors, Savable, DeletedLast, ReadCdirAt, NewComment;
    if SavedParts(b, orig, w).Ok? {
      var (cs, rs) := SavedParts(b, orig, w).value;
      if |Tiles(rs)| + |DirectoryBytes(cs)| < 0x1_0000_0000 {
        CommentBack(cs, rs, NewComment(b, previous), checkCons);
      }
    }
  }

  /** The archive's comment comes back as the last one that was set, or else as the old one. */
  lemma ArchiveCommentBack(a: Arch, ops: seq<Op>, orig: seq<byte>, w: World, previous: Field, checkCons: bool)
    requires JustOpened(a) && NeverLosesName(a, ops) && NeverBreaksOrder(a, ops) && !Torrent(a.flags)
    ensures var b := Run(a, ops);
      && Savable(b) && DeletedLast(b.entries)
      && HasComment(b, orig, w, previous, checkCons,
        match LastArchiveComment(a, ops)
        case Some(text) => text[..|text| % 0x1_0000]
        case None => previous)
  {
    hide Run, JustOpened, Consistent, Savable, DeletedLast, HasComment, Torrent, Kept, LastFlags;
    hide NeverLosesName, NeverBreaksOrder, LastArchiveComment, NewComment;
    var b := Run(a, ops);
    HistoryCanBeSaved(a, ops);
    RunConsistent(a, ops);
    LastArchiveCallsCount(a, ops);
    SavedComment(b, orig, w, previous, checkCons);
    CommentMeans(b, previous);
  }

  lemma CommentBack(cs: seq<Dirent>, rs: seq<Record>, comment: Field, checkCons: bool)
    requires |Tiles(rs)| + |DirectoryBytes(cs)| < 0x1_0000_0000
    ensures match ReadCdirAt(ArchiveBytes(cs, rs, comment), |Tiles(rs)| + |DirectoryBytes(cs)|, checkCons)
            case Err(_) => false
            case Ok(cd) => cd.comment == comment
  {
    hide ReadCdirAt, DirectoryBytes, EocdBytes, Tiles;
    CdirRoundTrip(Tiles(rs), cs, comment, checkCons);
  }

  lemma CommentMeans(b: Arch, previous: Field)
    requires !Torrent(b.flags)
    ensures NewComment(b, previous)
      == if b.chComment.Some? then b.chComment.value[..|b.chComment.value| % 0x1_0000] else previous
  {
    hide Torrent;
  }

  // ----- properties that fail, by example

  /** Deleting the first of two entries of an archive just opened: the kept one's index is beyond the new directory. */
  lemma DeletedInFront() returns (a: Arch, op: Op)
    ensures JustOpened(a) && !DeletedLast(Step(a, op).entries)
    ensures var entries := Step(a, op).entries;
      exists j :: 0 <= j < |Live(entries)| && Live(entries)[j] >= |Live(entries)|
  {
    var d := InitDirent(DosTime(0, 0));
    a := Arch(0, 0, None, Some([d, d]), [NEW_ENTRY, NEW_ENTRY]);
    op := OpDelete(0);
    var entries := Step(a, op).entries;
    assert entries[0].state == State.Deleted && entries[1].state != State.Deleted;
    DirectoryIndexInside(entries);
  }

  /** A file added to an empty archive, and undone alone: an entry without a name is left, which cannot be saved. */
  lemma NamelessEntry() returns (a: Arch, ops: seq<Op>)
    ensures JustOpened(a) && !Savable(Run(a, ops))
  {
    hide Guess, HasName, Add, Unchange, Savable, Run;
    a := Arch(0, 0, None, None, []);
    var added, undone := OpAdd([0x61], DataSource(0)), OpUnchange(0);
    ops := [added, undone];
    PlainLetters();
    AddRefused(a, [0x61], DataSource(0));
    OpenedSavable(a);
    var b := Step(a, added);
    var (grown, r) := Add(a, [0x61], DataSource(0));
    assert a.chFlags & ZIP_AFL_RDONLY == 0;
    assert r.Ok? && |grown.entries| == 1 && b == grown;
    StepSavable(a, added);
    StepConsistent(a, added);
    StepEntries(a, added);
    assert LosesName(b, undone);
    StepSavable(b, undone);
    RunTwo(a, added, undone);
  }

  lemma RunTwo(a: Arch, x: Op, y: Op)
    ensures Run(a, [x, y]) == Step(Step(a, x), y)
  {
    hide Step;
    assert [x, y][1..] == [y] && [y][1..] == [];
    assert Run(Step(a, x), [y]) == Step(Step(a, x), y);
  }
}
