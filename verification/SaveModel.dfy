/** What saving makes of each entry, and where it puts it, on values. */
module SaveModel {
  import opened Bytes
  import opened ByteFiles
  import opened Dirents
  import opened Cdirs
  import opened Encodings
  import opened ArchiveModel

  // ----- where new data comes from

  /** The source handed to `add_data`: the caller's, or the member's own old data to be recompressed. */
  datatype Feed = User(source: DataSource) | Recompress(i: nat)

  /** What `zip_source_stat` says before copying; fields it does not know are None. */
  datatype Known = Known(compMethod: Option<u16>, size: Option<nat>)

  /** What `zip_source_stat` says after copying. */
  datatype SourceStat = SourceStat(lastMod: DosTime, compMethod: u16, crc: u32, size: nat)

  /** The layers `add_data` puts on top of the source. */
  datatype Layer = Inflating | Checksum | Deflating

  /** What reading a source through some layers gives: the chunks, whether it failed, and the stat at the end. */
  datatype Output = Output(chunks: seq<seq<byte>>, failed: bool, stat: Option<SourceStat>)

  /** Everything saving does not compute itself: the sources, the compressor, and local time at time_t 0. */
  datatype World = World(
    opens: Feed -> bool,
    before: Feed -> Option<Known>,
    run: (Feed, seq<Layer>) -> Output,
    epoch: DosTime)

  /** The layers, from what is known of the source and the method asked for; only deflate is implemented. */
  function Layers(known: Known, wanted: int): Result<seq<Layer>, ZipError> {
    var m: int := if known.compMethod.Some? then known.compMethod.value else ZIP_CM_STORE;
    if m == wanted then Ok([])
    else if m != ZIP_CM_STORE && m != ZIP_CM_DEFLATE then Err(ErCompNotSupp)
    else
      var lower := if m == ZIP_CM_STORE then [Checksum] else [Inflating, Checksum];
      if wanted == ZIP_CM_STORE || known.size == Some(0) then Ok(lower)
      else if wanted != ZIP_CM_DEFLATE then Err(ErCompNotSupp)
      else Ok(lower + [Deflating])
  }

  /** The method `add_data` aims at. */
  function Wanted(asked: Option<int>): int {
    if asked.None? || asked.value == ZIP_CM_DEFAULT then ZIP_CM_DEFLATE else asked.value
  }

  function Joined(chunks: seq<seq<byte>>): seq<byte> {
    if chunks == [] then [] else Joined(chunks[..|chunks| - 1]) + chunks[|chunks| - 1]
  }

  /** What comes out of a source, or why nothing does. */
  function Produced(w: World, feed: Feed, asked: Option<int>): Result<(seq<byte>, SourceStat), ZipError> {
    if !w.opens(feed) then Err(ErSource)
    else match w.before(feed)
      case None => Err(ErSource)
      case Some(known) =>
        match Layers(known, Wanted(asked))
        case Err(e) => Err(e)
        case Ok(layers) =>
          var out := w.run(feed, layers);
          if out.failed || out.stat.None? then Err(ErSource) else Ok((Joined(out.chunks), out.stat.value))
  }

  // ----- one entry

  /** A local header and the data behind it. */
  datatype Record = Record(header: Dirent, data: seq<byte>)

  function RecordBytes(r: Record): seq<byte> {
    HeaderBytes(r.header, true) + r.data
  }

  predicate DataChanged(e: Entry) {
    e.state == Replaced || e.state == Added
  }

  predicate NewData(e: Entry) {
    DataChanged(e) || e.changes.compMethod.Some?
  }

  /** Whether name and comment together ask for the UTF-8 flag. */
  predicate WantsUtf8(name: seq<byte>, comment: seq<byte>) {
    Guess(name) != Cp437 && Guess(comment) != Cp437 && (Guess(name) == Utf8 || Guess(comment) == Utf8)
  }

  function EncodingFlags(flags: u16, name: seq<byte>, comment: seq<byte>): u16 {
    if WantsUtf8(name, comment) then SetBit(flags, ENCODING_UTF_8) else ClearBit(flags, ENCODING_UTF_8)
  }

  function Or<T>(o: Option<T>, default: T): T {
    if o.Some? then o.value else default
  }

  /** The local header and the directory entry of an entry that gets new data, before the data is known. */
  function FreshHeaders(e: Entry, original: Option<Dirent>, w: World): (Dirent, Dirent)
    requires e.changes.filename.Some? || original.Some?
  {
    var name := if e.changes.filename.Some? then e.changes.filename.value else original.value.filename;
    var comment := Or(e.changes.comment, []);
    var d := InitDirent(w.epoch).(compMethod := Or(e.changes.compMethod, 0), filename := name);
    var flags := EncodingFlags(d.bitflags, name, comment);
    (d.(bitflags := flags, extra := Or(e.changes.extra, [])), d.(bitflags := flags, comment := comment))
  }

  /** The same for an entry whose data is copied: both old headers, without a data descriptor, with the changes. */
  function CopiedHeaders(e: Entry, original: Dirent, local: Dirent): (Dirent, Dirent) {
    var described := HasBit(local.bitflags, DATA_DESCRIPTOR);
    var l := if described then
        local.(crc := original.crc, compSize := original.compSize, uncompSize := original.uncompSize,
          bitflags := ClearBit(local.bitflags, DATA_DESCRIPTOR))
      else local;
    var l' := l.(filename := Or(e.changes.filename, l.filename), extra := Or(e.changes.extra, l.extra));
    var c := original.(filename := Or(e.changes.filename, original.filename),
                       comment := Or(e.changes.comment, original.comment));
    var flags := EncodingFlags(l'.bitflags, l'.filename, c.comment);
    (l'.(bitflags := flags), c.(bitflags := flags))
  }

  /** The directory entry (its offset still open) and the record that entry number i is saved as. */
  function SaveEntry(a: Arch, orig: seq<byte>, w: World, i: nat): Result<(Dirent, Record), ZipError>
    requires i < |a.entries|
    requires Original(a, i).Some? || (a.entries[i].state == Added && a.entries[i].changes.filename.Some?)
    requires DataChanged(a.entries[i]) ==> a.entries[i].source.Some?
  {
    var e := a.entries[i];
    if NewData(e) then
      var (l, c) := FreshHeaders(e, Original(a, i), w);
      var feed := if DataChanged(e) then User(e.source.value) else Recompress(i);
      match Produced(w, feed, e.changes.compMethod)
      case Err(err) => Err(err)
      case Ok((data, st)) =>
        Ok((WithStat(c, st, |data|), Record(WithStat(l, st, |data|), data)))
    else
      match ParseDirent(Ahead(orig, Original(a, i).value.offset), None, true)
      case Err(err) => Err(err)
      case Ok((local, n)) =>
        var (l, c) := CopiedHeaders(e, Original(a, i).value, local);
        var data := Ahead(orig, Original(a, i).value.offset + n);
        if |data| < c.compSize then Err(ErEof) else Ok((c, Record(l, data[..c.compSize])))
  }

  /** What `add_data` fills in when the data has been copied. */
  function WithStat(d: Dirent, st: SourceStat, size: nat): Dirent {
    d.(lastMod := st.lastMod, compMethod := st.compMethod, crc := st.crc,
       uncompSize := Low32(st.size), compSize := Low32(size))
  }

  // ----- the whole file

  function Tiles(rs: seq<Record>): seq<byte> {
    if rs == [] then [] else Tiles(rs[..|rs| - 1]) + RecordBytes(rs[|rs| - 1])
  }

  /** Every entry that is not deleted has a name, and data to save. */
  predicate Savable(a: Arch) {
    forall i | 0 <= i < |a.entries| && a.entries[i].state != State.Deleted ::
      && (Original(a, i).Some? || (a.entries[i].state == Added && a.entries[i].changes.filename.Some?))
      && (DataChanged(a.entries[i]) ==> a.entries[i].source.Some?)
  }

  /** Calls that leave an entry without a name: undoing an entry that was added, or replacing one that was added and
      deleted. */
  predicate LosesName(a: Arch, op: Op) {
    match op
    case OpUnchange(i) => i < |a.entries| && Original(a, i).None?
    case OpUnchangeAll => exists i :: 0 <= i < |a.entries| && Original(a, i).None?
    case OpReplace(i, _) =>
      i < |a.entries| && !ReadOnly(a) && Original(a, i).None? && a.entries[i].state == State.Deleted
    case _ => false
  }

  /** An archive that can be saved stays so exactly when no entry loses its name. */
  lemma StepSavable(a: Arch, op: Op)
    requires Consistent(a) && Savable(a)
    ensures Savable(Step(a, op)) <==> !LosesName(a, op)
  {
    hide Savable, Consistent, Add, Replace, Unchange, UnchangeAll;
    match op {
      case OpUnchange(i) => OneUnchanged(a, i);
      case OpUnchangeAll => AllUnchanged(a);
      case OpReplace(i, source) => ReplaceNames(a, i, source);
      case OpAdd(name, source) => AddNames(a, name, source);
      case OpRename(i, _) => RenameNames(a, op);
      case _ => SettingsKeepNames(a, op);
    }
  }

  lemma SettingsKeepNames(a: Arch, op: Op)
    requires Savable(a) && !op.OpUnchange? && !op.OpUnchangeAll? && !op.OpReplace? && !op.OpAdd? && !op.OpRename?
    ensures Savable(Step(a, op))
  {
    hide Guess, RawComment, Changed, Kept;
  }

  lemma OneUnchanged(a: Arch, i: nat)
    requires Savable(a)
    ensures Savable(Unchange(a, i, false).0) <==> !(i < |a.entries| && Original(a, i).None?)
  {
    hide Locate, DisplayName;
    if i < |a.entries| {
      var b := Unchange(a, i, false).0;
      assert b != a ==> b.entries[i] == NEW_ENTRY;
    }
  }

  lemma AllUnchanged(a: Arch)
    ensures Savable(UnchangeAll(a)) <==> !LosesName(a, OpUnchangeAll)
  {
    var b := UnchangeAll(a);
    if LosesName(a, OpUnchangeAll) {
      var i :| 0 <= i < |a.entries| && Original(a, i).None?;
      assert b.entries[i] == NEW_ENTRY && Original(b, i).None?;
    } else {
      assert forall i | 0 <= i < |a.entries| :: Original(b, i) == Original(a, i) && b.entries[i] == NEW_ENTRY;
    }
  }

  lemma ReplaceNames(a: Arch, i: nat, source: DataSource)
    requires Consistent(a) && Savable(a)
    ensures Savable(Replace(a, i, source).0) <==> !LosesName(a, OpReplace(i, source))
  {
    if i < |a.entries| && !ReadOnly(a) {
      var b := Replace(a, i, source).0;
      assert EntryOk(a, i) && b.entries[i].changes == a.entries[i].changes && b.entries[i].source.Some?;
      assert b.entries[i].state == if Original(a, i).None? then Added else Replaced;
      assert forall k | 0 <= k < |a.entries| && k != i :: b.entries[k] == a.entries[k];
    }
  }

  lemma AddNames(a: Arch, name: CString, source: DataSource)
    requires Consistent(a) && Savable(a)
    ensures Savable(Add(a, name, source).0)
  {
    hide Guess, RawComment, SameName, DisplayName;
    var n := |a.entries|;
    var grown := a.(entries := a.entries + [FILLED_ENTRY]);
    assert NameOf(grown, n, DEFAULT).Err?;
    assert !Matches(grown, n, name, DEFAULT);
  }

  lemma RenameNames(a: Arch, op: Op)
    requires Consistent(a) && Savable(a) && op.OpRename?
    ensures Savable(Step(a, op))
  {
    hide Locate, Guess, RawComment, IsDir, NameOf;
    Named(a, op.i);
  }

  predicate NeverLosesName(a: Arch, ops: seq<Op>)
    decreases |ops|
  {
    ops == [] || (!LosesName(a, ops[0]) && NeverLosesName(Step(a, ops[0]), ops[1..]))
  }

  /** After every history in which no entry loses its name, each entry that is kept has a name and data to save. */
  lemma {:induction false} RunSavable(a: Arch, ops: seq<Op>)
    requires Consistent(a) && Savable(a) && NeverLosesName(a, ops)
    ensures Savable(Run(a, ops))
    decreases |ops|
  {
    if ops != [] {
      hide LosesName, Savable, Consistent;
      StepSavable(a, ops[0]);
      StepConsistent(a, ops[0]);
      RunSavable(Step(a, ops[0]), ops[1..]);
    }
  }

  /** The start of a history. */
  lemma OpenedSavable(a: Arch)
    requires JustOpened(a)
    ensures Consistent(a) && Savable(a) && DeletedLast(a.entries)
  {
  }

  /** Only entries at the end are deleted. */
  predicate DeletedLast(entries: seq<Entry>) {
    forall i, j | 0 <= i < j < |entries| :: entries[i].state == State.Deleted ==> entries[j].state == State.Deleted
  }

  /** Directory entries and records of the first n entries. */
  function SaveEntries(a: Arch, orig: seq<byte>, w: World, n: nat): (r: Result<(seq<Dirent>, seq<Record>), ZipError>)
    requires n <= |a.entries| && Savable(a) && forall i | 0 <= i < n :: a.entries[i].state != State.Deleted
    ensures r.Ok? ==> |r.value.0| == |r.value.1| == n
  {
    if n == 0 then Ok(([], []))
    else match SaveEntries(a, orig, w, n - 1)
      case Err(e) => Err(e)
      case Ok((cs, rs)) =>
        match SaveEntry(a, orig, w, n - 1)
        case Err(e) => Err(e)
        case Ok((c, r)) => Ok((cs + [c.(offset := Low32(|Tiles(rs)|))], rs + [r]))
  }

  predicate Torrent(flags: bv32) {
    flags & ZIP_AFL_TORRENT != 0
  }

  /** The comment the new archive gets. */
  function NewComment(a: Arch, previous: Field): Field {
    if Torrent(a.flags) then []
    else if a.chComment.Some? then Kept(a.chComment.value)
    else previous
  }

  /** The bytes of a saved archive. */
  function ArchiveBytes(cs: seq<Dirent>, rs: seq<Record>, comment: Field): seq<byte> {
    var tiles := Tiles(rs);
    var dir := DirectoryBytes(cs);
    tiles + dir + EocdBytes(|cs|, Low32(|dir|), Low32(|tiles|), comment)
  }

  // ----- which entry goes where

  /** The indices of the entries that are not deleted, in order. */
  function Live(entries: seq<Entry>): seq<nat> {
    if entries == [] then []
    else Live(entries[..|entries| - 1]) + if entries[|entries| - 1].state != State.Deleted then [|entries| - 1] else []
  }

  lemma {:induction false} LiveCount(entries: seq<Entry>)
    ensures |Live(entries)| == Survivors(entries)
    ensures forall j | 0 <= j < |Live(entries)| ::
      j <= Live(entries)[j] < |entries| && entries[Live(entries)[j]].state != State.Deleted
  {
    if entries != [] {
      LiveCount(entries[..|entries| - 1]);
    }
  }

  lemma {:induction false} LiveIsPrefix(entries: seq<Entry>)
    requires DeletedLast(entries)
    ensures forall j | 0 <= j < |Live(entries)| :: Live(entries)[j] == j
  {
    if entries != [] {
      var shorter := entries[..|entries| - 1];
      LiveIsPrefix(shorter);
      LiveCount(shorter);
      if entries[|entries| - 1].state != State.Deleted {
        assert forall i | 0 <= i < |shorter| :: shorter[i].state != State.Deleted;
        AllLive(shorter);
      }
    }
  }

  lemma {:induction false} AllLive(entries: seq<Entry>)
    requires forall i | 0 <= i < |entries| :: entries[i].state != State.Deleted
    ensures |Live(entries)| == |entries|
  {
    if entries != [] {
      AllLive(entries[..|entries| - 1]);
    }
  }

  /** The save loop indexes the new directory, which has room for the survivors only, by the entry's old index. It
      stays inside for every entry exactly when no deleted entry comes before one that is kept; then old and new
      index are the same. */
  lemma {:induction false} DirectoryIndexInside(entries: seq<Entry>)
    ensures (forall j | 0 <= j < |Live(entries)| :: Live(entries)[j] < |Live(entries)|) <==> DeletedLast(entries)
    ensures DeletedLast(entries) ==> forall j | 0 <= j < |Live(entries)| :: Live(entries)[j] == j
  {
    if DeletedLast(entries) {
      LiveIsPrefix(entries);
    } else {
      var i, k :| 0 <= i < k < |entries| && entries[i].state == State.Deleted && entries[k].state != State.Deleted;
      var j := LiveGap(entries, i, k);
    }
  }

  /** A deleted entry before a kept one pushes the last kept one outside. */
  lemma {:induction false} LiveGap(entries: seq<Entry>, i: nat, k: nat) returns (j: nat)
    requires i < k < |entries| && entries[i].state == State.Deleted && entries[k].state != State.Deleted
    ensures j < |Live(entries)| <= Live(entries)[j]
    decreases |entries|
  {
    var n := |entries| - 1;
    var shorter := entries[..n];
    LiveCount(shorter);
    if entries[n].state != State.Deleted {
      j := |Live(shorter)|;
      Fewer(shorter, i);
    } else {
      j := LiveGap(shorter, i, k);
    }
  }

  lemma {:induction false} Fewer(entries: seq<Entry>, i: nat)
    requires i < |entries| && entries[i].state == State.Deleted
    ensures |Live(entries)| < |entries|
  {
    var shorter := entries[..|entries| - 1];
    LiveCount(shorter);
    if i < |entries| - 1 {
      Fewer(shorter, i);
    } else {
      AtMost(shorter);
    }
  }

  lemma {:induction false} AtMost(entries: seq<Entry>)
    ensures |Live(entries)| <= |entries|
  {
    if entries != [] {
      AtMost(entries[..|entries| - 1]);
    }
  }
}
