/** What a saved archive says of each entry, read back from its bytes, and what the entry's data decodes to. */
module Contents {
  import opened Bytes
  import opened ByteFiles
  import opened Dirents
  import opened Cdirs
  import opened Encodings
  import opened ArchiveModel
  import opened SaveModel
  import opened Reopening
  import opened SaveAndOpen

  // ----- headers

  /** The part of a name that a header can hold. */
  function Short(name: seq<byte>): seq<byte> {
    name[..|name| % 0x1_0000]
  }

  /** Headers l and d of an entry that got new data: all about the data is what the source said at the end, the
      settings are those asked for, and the rest is as in a new header. */
  predicate NewAs(e: Entry, was: Option<Dirent>, l: Dirent, d: Dirent, bytes: seq<byte>, st: SourceStat)
    requires e.changes.filename.Some? || was.Some?
  {
    var name := if e.changes.filename.Some? then e.changes.filename.value else was.value.filename;
    && l.compMethod == d.compMethod == st.compMethod && l.lastMod == d.lastMod == st.lastMod
    && l.crc == d.crc == st.crc && l.uncompSize == d.uncompSize == st.size % 0x1_0000_0000
    && l.compSize == d.compSize == |bytes| % 0x1_0000_0000
    && l.filename == d.filename == Short(name)
    && d.comment == Or(e.changes.comment, []) && l.extra == Or(e.changes.extra, []) && d.extra == []
    && l.bitflags == d.bitflags == (if WantsUtf8(name, d.comment) then 0x800 else 0)
    && l.versionNeeded == d.versionNeeded == 20
    && d.versionMadeby == 0 && d.diskNumber == 0 && d.intAttrib == 0 && d.extAttrib == 0
  }

  /** Headers l and d of an entry whose data was copied from behind header `before`: as in the old archive but for the
      settings asked for, and without a data descriptor. */
  predicate CopiedAs(e: Entry, was: Dirent, before: Dirent, l: Dirent, d: Dirent) {
    var described := before.bitflags / 8 % 2 == 1;
    && (l.compMethod, d.compMethod) == (before.compMethod % 0x1_0000, was.compMethod % 0x1_0000)
    && (l.lastMod, d.lastMod) == (before.lastMod, was.lastMod)
    && (l.crc, l.compSize, l.uncompSize)
       == (if described then (was.crc, was.compSize, was.uncompSize)
           else (before.crc, before.compSize, before.uncompSize))
    && (d.crc, d.compSize, d.uncompSize) == (was.crc, was.compSize, was.uncompSize)
    && l.filename == Short(Or(e.changes.filename, before.filename))
    && d.filename == Short(Or(e.changes.filename, was.filename))
    && d.comment == Or(e.changes.comment, was.comment)
    && l.extra == Or(e.changes.extra, before.extra) && d.extra == was.extra
    && l.bitflags == d.bitflags
    && l.bitflags == before.bitflags - (if described then 8 else 0)
      - (if before.bitflags / 0x800 % 2 == 1 then 0x800 else 0)
      + (if WantsUtf8(Or(e.changes.filename, before.filename), d.comment) then 0x800 else 0)
    && (l.versionNeeded, d.versionNeeded) == (before.versionNeeded, was.versionNeeded)
    && (d.versionMadeby, d.diskNumber, d.intAttrib, d.extAttrib)
       == (was.versionMadeby, was.diskNumber, was.intAttrib, was.extAttrib)
  }

  lemma NewEntryHeaders(a: Arch, orig: seq<byte>, w: World, j: nat)
    requires j < |a.entries| && Savable(a) && a.entries[j].state != State.Deleted && NewData(a.entries[j])
    requires SaveEntry(a, orig, w, j).Ok?
    ensures var (c, r) := SaveEntry(a, orig, w, j).value;
      var e := a.entries[j];
      match Produced(w, if DataChanged(e) then User(e.source.value) else Recompress(j), e.changes.compMethod)
      case Err(_) => false
      case Ok((bytes, st)) => NewAs(e, Original(a, j), Stored(r.header, true), Stored(c, false), bytes, st)
  {
    hide Produced, WantsUtf8;
  }

  lemma CopiedEntryHeaders(a: Arch, orig: seq<byte>, w: World, j: nat)
    requires j < |a.entries| && Savable(a) && a.entries[j].state != State.Deleted && !NewData(a.entries[j])
    requires SaveEntry(a, orig, w, j).Ok?
    ensures var (c, r) := SaveEntry(a, orig, w, j).value;
      var was := Original(a, j).value;
      match ParseDirent(Ahead(orig, was.offset), None, true)
      case Err(_) => false
      case Ok((before, _)) => CopiedAs(a.entries[j], was, before, Stored(r.header, true), Stored(c, false))
  {
    hide ParseDirent, WantsUtf8;
  }

  /** The UTF-8 flag is for a name and a comment that are both made of whole characters, and not both plain ASCII. */
  lemma FlagMeans(name: seq<byte>, comment: seq<byte>)
    ensures WantsUtf8(name, comment) <==>
      && (exists units :: AllUnits(units) && Flatten(units) == name)
      && (exists units :: AllUnits(units) && Flatten(units) == comment)
      && exists b :: b in name + comment && !Plain(b)
  {
    hide Guess;
    GuessIsText(name);
    GuessIsText(comment);
    if b :| b in name + comment && !Plain(b) {
      assert b in name || b in comment;
    } else {
      assert forall b <- name :: b in name + comment;
      assert forall b <- comment :: b in name + comment;
    }
  }

  /** The headers of entry j of a saved file: the directory is read at its end record, the local header where the
      directory entry says. */
  function HeadersIn(data: seq<byte>, e: nat, checkCons: bool, j: nat): Option<(Dirent, Dirent)> {
    match ReadCdirAt(data, e, checkCons)
    case Err(_) => None
    case Ok(cd) =>
      if j >= |cd.entries| then None
      else match ParseDirent(Ahead(data, cd.entries[j].offset), None, true)
        case Err(_) => None
        case Ok((l, _)) => Some((l, cd.entries[j]))
  }

  /** What the headers of entry j in the saved file say. */
  lemma SavedHeaders(a: Arch, orig: seq<byte>, w: World, n: nat, comment: Field, checkCons: bool, j: nat)
    requires j < n <= |a.entries| && Savable(a) && forall i | 0 <= i < n :: a.entries[i].state != State.Deleted
    requires SaveEntries(a, orig, w, n).Ok? && CountReadable(n)
    requires var (cs, rs) := SaveEntries(a, orig, w, n).value;
      |Tiles(rs)| + |DirectoryBytes(cs)| < 0x1_0000_0000
    ensures var (cs, rs) := SaveEntries(a, orig, w, n).value;
      var e := a.entries[j];
      match HeadersIn(ArchiveBytes(cs, rs, comment), |Tiles(rs)| + |DirectoryBytes(cs)|, checkCons, j)
      case None => false
      case Some((l, d)) =>
        if NewData(e) then
          match Produced(w, if DataChanged(e) then User(e.source.value) else Recompress(j), e.changes.compMethod)
          case Err(_) => false
          case Ok((bytes, st)) => NewAs(e, Original(a, j), l, d, bytes, st)
        else
          match ParseDirent(Ahead(orig, Original(a, j).value.offset), None, true)
          case Err(_) => false
          case Ok((before, _)) => CopiedAs(e, Original(a, j).value, before, l, d)
  {
    hide SaveEntries, ArchiveBytes, Tiles, DirectoryBytes, ReadCdirAt, ParseDirent, SaveEntry, Produced;
    hide HeaderBytes, NewAs, CopiedAs, Stored, RecordBytes, DataOffset;
    var (cs, rs) := SaveEntries(a, orig, w, n).value;
    var data := ArchiveBytes(cs, rs, comment);
    SavedEntry(a, orig, w, n, j);
    ReadBack(cs, rs, comment, checkCons);
    SavedLayout(a, orig, w, n, comment, j);
    RecordParsed(data, cs[j].offset, cs[j].offset + |RecordBytes(rs[j])|, rs[j]);
    var c := SaveEntry(a, orig, w, j).value.0;
    OffsetOnly(c, cs[j]);
    if NewData(a.entries[j]) {
      NewEntryHeaders(a, orig, w, j);
    } else {
      CopiedEntryHeaders(a, orig, w, j);
    }
  }

  /** The place of an entry does not matter for what is said above of its headers. */
  lemma OffsetOnly(c: Dirent, placed: Dirent)
    requires placed == c.(offset := placed.offset)
    ensures Stored(placed, false).offset == placed.offset
    ensures forall e: Entry, was: Option<Dirent>, l, bytes, st | e.changes.filename.Some? || was.Some? ::
      NewAs(e, was, l, Stored(placed, false), bytes, st) == NewAs(e, was, l, Stored(c, false), bytes, st)
    ensures forall e, was, before, l ::
      CopiedAs(e, was, before, l, Stored(placed, false)) == CopiedAs(e, was, before, l, Stored(c, false))
  {
  }

  /** The directory read from the saved file, field by field or cut to 16 bits. */
  lemma ReadBack(cs: seq<Dirent>, rs: seq<Record>, comment: Field, checkCons: bool)
    requires |Tiles(rs)| + |DirectoryBytes(cs)| < 0x1_0000_0000 && CountReadable(|cs|)
    ensures match ReadCdirAt(ArchiveBytes(cs, rs, comment), |Tiles(rs)| + |DirectoryBytes(cs)|, checkCons)
            case Err(_) => false
            case Ok(cd) => |cd.entries| == |cs| && forall j | 0 <= j < |cs| :: cd.entries[j] == Stored(cs[j], false)
  {
    hide ReadCdirAt, DirectoryBytes, EocdBytes, Stored, Tiles;
    CdirRoundTrip(Tiles(rs), cs, comment, checkCons);
  }

  // ----- data

  /** What is done to data outside of this model: decoding by a compression method, deflating, and the checksum. */
  datatype Codec = Codec(
    decode: (u16, seq<byte>) -> seq<byte>, deflate: seq<byte> -> seq<byte>, checksum: seq<byte> -> u32)

  /** Stored data is what it is, and inflating undoes deflating. */
  ghost predicate Inverse(c: Codec) {
    (forall s :: c.decode(0, s) == s) && (forall s :: c.decode(8, c.deflate(s)) == s)
  }

  /** Everything a source gives, and what it says of that at the end. */
  datatype Passed = Passed(bytes: seq<byte>, stat: SourceStat)

  /** What the layers are called after, the first one next to the source. */
  function Through(c: Codec, p: Passed, layers: seq<Layer>): Passed {
    if layers == [] then p
    else
      var below := Through(c, p, layers[..|layers| - 1]);
      match layers[|layers| - 1]
      case Inflating => Passed(c.decode(8, below.bytes), below.stat.(compMethod := 0))
      case Checksum => below.(stat := below.stat.(crc := c.checksum(below.bytes), size := |below.bytes|))
      case Deflating => Passed(c.deflate(below.bytes), below.stat.(compMethod := 8))
  }

  /** The clear bytes of a source. */
  function Clear(c: Codec, p: Passed): seq<byte> {
    c.decode(p.stat.compMethod, p.bytes)
  }

  /** Sources and layers are what they claim: `base` is what each source gives on its own. */
  ghost predicate Faithful(w: World, c: Codec, base: Feed -> Passed) {
    && Inverse(c)
    && (forall f :: base(f).stat.crc == c.checksum(Clear(c, base(f))) && base(f).stat.size == |Clear(c, base(f))|)
    && (forall f | w.before(f).Some? ::
      && Or(w.before(f).value.compMethod, 0) == base(f).stat.compMethod
      && (w.before(f).value.size.Some? ==> w.before(f).value.size.value == base(f).stat.size))
    && (forall f, layers | !w.run(f, layers).failed && w.run(f, layers).stat.Some? ::
      Passed(Joined(w.run(f, layers).chunks), w.run(f, layers).stat.value) == Through(c, base(f), layers))
  }

  /** The method the entry is to have; deflating is the default. */
  function Intended(asked: Option<int>): int {
    match asked
    case None => 8
    case Some(m) => if m == -1 then 8 else m
  }

  /** Whatever layers are put on a source, decoding what is saved by the method that is saved gives the clear bytes of
      the source; checksum and size are theirs, and the method is the intended one, or none for no bytes. */
  lemma ProducedDecodes(w: World, c: Codec, base: Feed -> Passed, feed: Feed, asked: Option<int>)
    requires Faithful(w, c, base)
    ensures var clear := Clear(c, base(feed));
      match Produced(w, feed, asked)
      case Err(_) => true
      case Ok((bytes, st)) =>
        && c.decode(st.compMethod, bytes) == clear && st.crc == c.checksum(clear) && st.size == |clear|
        && st.lastMod == base(feed).stat.lastMod
        && (st.compMethod == Intended(asked) || (st.compMethod == 0 && clear == []))
  {
    hide Joined;
    if Produced(w, feed, asked).Ok? {
      var layers := Layers(w.before(feed).value, Wanted(asked)).value;
      var p := base(feed);
      assert Passed(Joined(w.run(feed, layers).chunks), w.run(feed, layers).stat.value) == Through(c, p, layers);
      ThroughAll(c, p);
    }
  }

  /** A source is given up for its compression method exactly when its data must be converted from or to something
      that is neither stored nor deflated; no bytes need no conversion to anything. */
  lemma UnsupportedIff(w: World, feed: Feed, asked: Option<int>)
    requires w.opens(feed) && w.before(feed).Some?
    ensures var has: int, wanted := Or(w.before(feed).value.compMethod, 0), Intended(asked);
      Produced(w, feed, asked) == Err(ErCompNotSupp)
      <==> (
        && has != wanted
        && ((has != 0 && has != 8) || (wanted != 0 && wanted != 8 && w.before(feed).value.size != Some(0))))
  {
    hide Joined;
  }

  /** The stacks of layers that there are. */
  lemma ThroughAll(c: Codec, p: Passed)
    ensures var inflated := Passed(c.decode(8, p.bytes), p.stat.(compMethod := 0));
      && Through(c, p, []) == p
      && Through(c, p, [Checksum]) == Summed(c, p)
      && Through(c, p, [Checksum, Deflating]) == Deflated(c, Summed(c, p))
      && Through(c, p, [Inflating, Checksum]) == Summed(c, inflated)
      && Through(c, p, [Inflating, Checksum, Deflating]) == Deflated(c, Summed(c, inflated))
  {
    hide Through;
    NoLayers(c, p);
    ThroughNext(c, p, [], Checksum);
    ThroughNext(c, p, [Checksum], Deflating);
    ThroughNext(c, p, [], Inflating);
    ThroughNext(c, p, [Inflating], Checksum);
    ThroughNext(c, p, [Inflating, Checksum], Deflating);
    assert [] + [Checksum] == [Checksum] && [] + [Inflating] == [Inflating];
    assert [Checksum] + [Deflating] == [Checksum, Deflating] && [Inflating] + [Checksum] == [Inflating, Checksum];
    assert [Inflating, Checksum] + [Deflating] == [Inflating, Checksum, Deflating];
  }

  lemma NoLayers(c: Codec, p: Passed)
    ensures Through(c, p, []) == p
  {
  }

  function Summed(c: Codec, p: Passed): Passed {
    p.(stat := p.stat.(crc := c.checksum(p.bytes), size := |p.bytes|))
  }

  function Deflated(c: Codec, p: Passed): Passed {
    Passed(c.deflate(p.bytes), p.stat.(compMethod := 8))
  }

  lemma ThroughNext(c: Codec, p: Passed, layers: seq<Layer>, top: Layer)
    ensures var below := Through(c, p, layers);
      Through(c, p, layers + [top]) ==
      match top
      case Inflating => Passed(c.decode(8, below.bytes), below.stat.(compMethod := 0))
      case Checksum => Summed(c, below)
      case Deflating => Deflated(c, below)
  {
    assert (layers + [top])[..|layers|] == layers;
  }

  /** The clear bytes of entry i in the old archive. */
  function OldClear(a: Arch, orig: seq<byte>, c: Codec, i: nat): Option<seq<byte>> {
    match Original(a, i)
    case None => None
    case Some(was) =>
      match DataOffset(orig, was)
      case Err(_) => None
      case Ok(p) =>
        if p + was.compSize > |orig| then None
        else Some(c.decode(Low16(was.compMethod), orig[p..p + was.compSize]))
  }

  /** An entry that is to be recompressed is read from the old archive, to the end or not at all. */
  ghost predicate ReadsOld(a: Arch, orig: seq<byte>, w: World, c: Codec, base: Feed -> Passed) {
    forall i, layers | !w.run(Recompress(i), layers).failed ::
      OldClear(a, orig, c, i) == Some(Clear(c, base(Recompress(i))))
  }

  /** The clear bytes entry i stands for: those of its source, or else the old ones. */
  function ClearOf(a: Arch, orig: seq<byte>, c: Codec, base: Feed -> Passed, i: nat): Option<seq<byte>>
    requires i < |a.entries|
  {
    match a.entries[i].source
    case Some(source) => Some(Clear(c, base(User(source))))
    case None => OldClear(a, orig, c, i)
  }

  /** What decoding the data behind entry d by its method gives. */
  function ClearIn(data: seq<byte>, c: Codec, d: Dirent): Option<seq<byte>> {
    match DataOffset(data, d)
    case Err(_) => None
    case Ok(q) =>
      if q + d.compSize > |data| then None
      else Some(c.decode(Low16(d.compMethod), data[q..q + d.compSize]))
  }

  /** Whether an entry is copied, recompressed or new: decoded from the saved file by the method found there, it is
      what it stood for; and new data has its checksum, size and time in both headers. */
  lemma ContentSurvives(a: Arch, orig: seq<byte>, w: World, c: Codec, base: Feed -> Passed,
                        n: nat, comment: Field, checkCons: bool, j: nat)
    requires Faithful(w, c, base) && ReadsOld(a, orig, w, c, base) && Consistent(a) && |orig| < 0x1_0000_0000
    requires j < n <= |a.entries| && Savable(a) && forall i | 0 <= i < n :: a.entries[i].state != State.Deleted
    requires SaveEntries(a, orig, w, n).Ok? && CountReadable(n)
    requires var (cs, rs) := SaveEntries(a, orig, w, n).value;
      |Tiles(rs)| + |DirectoryBytes(cs)| < 0x1_0000_0000
    ensures var (cs, rs) := SaveEntries(a, orig, w, n).value;
      var data := ArchiveBytes(cs, rs, comment);
      var e := a.entries[j];
      match HeadersIn(data, |Tiles(rs)| + |DirectoryBytes(cs)|, checkCons, j)
      case None => false
      case Some((l, d)) =>
        && ClearOf(a, orig, c, base, j).Some?
        && ClearIn(data, c, d) == ClearOf(a, orig, c, base, j)
        && (NewData(e) ==>
          var clear := ClearOf(a, orig, c, base, j).value;
          var source := base(if e.source.Some? then User(e.source.value) else Recompress(j));
          && l.crc == d.crc == c.checksum(clear) && l.uncompSize == d.uncompSize == |clear| % 0x1_0000_0000
          && l.lastMod == d.lastMod == source.stat.lastMod
          && l.compMethod == d.compMethod
          && (d.compMethod == Intended(e.changes.compMethod) || (d.compMethod == 0 && clear == [])))
  {
    hide SaveEntries, ArchiveBytes, Tiles, DirectoryBytes, HeadersIn, DataOffset, Produced, ParseDirent;
    hide Faithful, ReadsOld, Clear, HeaderBytes, SaveEntry, NameOf;
    var (cs, rs) := SaveEntries(a, orig, w, n).value;
    SavedHeaders(a, orig, w, n, comment, checkCons, j);
    HeadersPlace(cs, rs, comment, checkCons, j);
    assert EntryOk(a, j);
    if NewData(a.entries[j]) {
      NewDataSurvives(a, orig, w, n, comment, j);
      var feed := if DataChanged(a.entries[j]) then User(a.entries[j].source.value) else Recompress(j);
      ProducedDecodes(w, c, base, feed, a.entries[j].changes.compMethod);
      if !DataChanged(a.entries[j]) {
        Recompressed(a, orig, w, c, base, j, a.entries[j].changes.compMethod);
      }
    } else {
      CopiedDataSurvives(a, orig, w, n, comment, j);
    }
  }

  lemma Recompressed(a: Arch, orig: seq<byte>, w: World, c: Codec, base: Feed -> Passed, i: nat, asked: Option<int>)
    requires ReadsOld(a, orig, w, c, base) && Produced(w, Recompress(i), asked).Ok?
    ensures OldClear(a, orig, c, i) == Some(Clear(c, base(Recompress(i))))
  {
    hide OldClear, Clear, Layers, Joined;
  }

  /** The directory entry that was read points where the saved one does. */
  lemma HeadersPlace(cs: seq<Dirent>, rs: seq<Record>, comment: Field, checkCons: bool, j: nat)
    requires j < |cs| && |Tiles(rs)| + |DirectoryBytes(cs)| < 0x1_0000_0000 && CountReadable(|cs|)
    ensures match HeadersIn(ArchiveBytes(cs, rs, comment), |Tiles(rs)| + |DirectoryBytes(cs)|, checkCons, j)
            case None => true
            case Some((_, d)) =>
              && d.compSize == cs[j].compSize
              && forall data :: DataOffset(data, d) == DataOffset(data, cs[j])
  {
    hide ReadCdirAt, DirectoryBytes, ArchiveBytes, Tiles, ParseDirent;
    ReadBack(cs, rs, comment, checkCons);
  }

  // ----- both together

  /** Headers l and d and the data behind d are what these settings and this source, if any, make of the old entry. */
  predicate MadeOf(changes: Changes, source: Option<DataSource>, was: Option<Dirent>, oldClear: Option<seq<byte>>,
                   c: Codec, base: Feed -> Passed, data: seq<byte>, l: Dirent, d: Dirent)
  {
    var clear := if source.Some? then Some(Clear(c, base(User(source.value)))) else oldClear;
    && clear.Some? && ClearIn(data, c, d) == clear
    && (match changes.filename
        case Some(name) => l.filename == d.filename == Short(name)
        case None => was.Some? && d.filename == Short(was.value.filename))
    && (changes.comment.Some? ==> d.comment == changes.comment.value)
    && (changes.extra.Some? ==> l.extra == changes.extra.value)
    && if source.Some? || changes.compMethod.Some? then
         && l.compMethod == d.compMethod
         && (d.compMethod == Intended(changes.compMethod) || (d.compMethod == 0 && clear.value == []))
         && l.crc == d.crc == c.checksum(clear.value)
         && l.uncompSize == d.uncompSize == |clear.value| % 0x1_0000_0000
         && (source.Some? ==> l.lastMod == d.lastMod == base(User(source.value)).stat.lastMod)
       else
         && was.Some? && d.compMethod == was.value.compMethod % 0x1_0000 && d.lastMod == was.value.lastMod
         && (d.crc, d.uncompSize, d.extra) == (was.value.crc, was.value.uncompSize, was.value.extra)
         && (changes.comment.None? ==> d.comment == was.value.comment)
  }

  lemma SavedAsMade(a: Arch, orig: seq<byte>, w: World, c: Codec, base: Feed -> Passed,
                    n: nat, comment: Field, checkCons: bool, j: nat)
    requires Faithful(w, c, base) && ReadsOld(a, orig, w, c, base) && Consistent(a) && |orig| < 0x1_0000_0000
    requires j < n <= |a.entries| && Savable(a) && forall i | 0 <= i < n :: a.entries[i].state != State.Deleted
    requires SaveEntries(a, orig, w, n).Ok? && CountReadable(n)
    requires var (cs, rs) := SaveEntries(a, orig, w, n).value;
      |Tiles(rs)| + |DirectoryBytes(cs)| < 0x1_0000_0000
    ensures var (cs, rs) := SaveEntries(a, orig, w, n).value;
      var data := ArchiveBytes(cs, rs, comment);
      var e := a.entries[j];
      match HeadersIn(data, |Tiles(rs)| + |DirectoryBytes(cs)|, checkCons, j)
      case None => false
      case Some((l, d)) => MadeOf(e.changes, e.source, Original(a, j), OldClear(a, orig, c, j), c, base, data, l, d)
  {
    hide SaveEntries, ArchiveBytes, Tiles, DirectoryBytes, HeadersIn, Produced, ParseDirent, Clear, OldClear, ClearIn;
    hide Faithful, ReadsOld, WantsUtf8, Short;
    assert EntryOk(a, j);
    SavedHeaders(a, orig, w, n, comment, checkCons, j);
    ContentSurvives(a, orig, w, c, base, n, comment, checkCons, j);
  }
}
