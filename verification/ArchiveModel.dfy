/** What an archive looks like between opening and closing, and what each editing call does to it, on values. The
    class in Archive.dfy does the same in place. */
module ArchiveModel {
  import opened Bytes
  import opened Dirents
  import opened Encodings

  datatype State = Unchanged | Deleted | Replaced | Added | Renamed

  /** `struct zip_dirent_settable` of an entry's changes; a field is present when its bit in `valid` is set. */
  datatype Changes = Changes(
    compMethod: Option<int>, filename: Option<CString>, comment: Option<Field>, extra: Option<Field>)

  const NO_CHANGES := Changes(None, None, None, None)

  const ZIP_CM_DEFAULT := -1
  const ZIP_CM_STORE := 0
  const ZIP_CM_DEFLATE := 8
  const ZIP_AFL_TORRENT: bv32 := 1
  const ZIP_AFL_RDONLY: bv32 := 2
  const MAXCOMLEN := 65536

  /** A caller's `struct zip_source`, by identity. */
  datatype DataSource = DataSource(id: nat)

  datatype Entry = Entry(state: State, source: Option<DataSource>, changes: Changes)

  const NEW_ENTRY := Entry(Unchanged, None, NO_CHANGES)

  /** `struct zip`: the original directory (None for a new archive) and one entry per member. */
  datatype Arch = Arch(
    flags: bv32, chFlags: bv32, chComment: Option<seq<byte>>, cdir: Option<seq<Dirent>>, entries: seq<Entry>)

  type Error = Option<ZipError>

  // ----- names

  /** The ZIP_FL_* flags that matter for names. */
  datatype NameFlags = NameFlags(original: bool, raw: bool, strict: bool, noCase: bool, noDir: bool)

  const DEFAULT := NameFlags(false, false, false, false, false)
  const ORIGINAL := DEFAULT.(original := true)
  const RAW := DEFAULT.(raw := true)

  function Original(a: Arch, i: nat): Option<Dirent> {
    if a.cdir.Some? && i < |a.cdir.value| then Some(a.cdir.value[i]) else None
  }

  /** An original name as the library shows it: in UTF-8, whatever it was stored in. */
  function DisplayName(d: Dirent, fl: NameFlags): seq<byte> {
    if fl.raw || HasBit(d.bitflags, ENCODING_UTF_8) then d.filename
    else if (fl.strict && Guess(d.filename) != Ascii) || Guess(d.filename) == Cp437 then Cp437ToUtf8(d.filename)
    else d.filename
  }

  function NameOf(a: Arch, i: nat, fl: NameFlags): Result<seq<byte>, ZipError> {
    if i >= |a.entries| then Err(ErInval)
    else if !fl.original && a.entries[i].state == Deleted then Err(ErDeleted)
    else if !fl.original && a.entries[i].changes.filename.Some? then Ok(a.entries[i].changes.filename.value)
    else match Original(a, i)
      case None => Err(ErInval)
      case Some(d) => Ok(DisplayName(d, fl))
  }

  function Lower(b: byte): byte {
    if 0x41 <= b <= 0x5A then b + 0x20 else b
  }

  /** `strcmp` or `strcasecmp` finding no difference */
  predicate SameName(s: seq<byte>, t: seq<byte>, noCase: bool) {
    if noCase then |s| == |t| && forall i | 0 <= i < |s| :: Lower(s[i]) == Lower(t[i]) else s == t
  }

  /** What follows the last slash. */
  function BaseName(s: seq<byte>): seq<byte> {
    if 0x2F !in s then s else BaseName(s[1..])
  }

  lemma {:induction false} BaseNameMeans(s: seq<byte>)
    ensures var n := |s| - |BaseName(s)|;
      && 0 <= n && BaseName(s) == s[n..] && 0x2F !in BaseName(s) && (n > 0 ==> s[n - 1] == 0x2F)
  {
    if 0x2F in s {
      BaseNameMeans(s[1..]);
    }
  }

  /** Case does not matter for the letters A to Z only, and only if asked for. */
  lemma LettersCompared(b: byte, c: byte)
    ensures SameName([b], [c], false) <==> b == c
    ensures SameName([b], [c], true)
      <==> b == c || (65 <= b <= 90 && c == b + 32) || (65 <= c <= 90 && b == c + 32)
  {
  }

  predicate Matches(a: Arch, i: nat, name: seq<byte>, fl: NameFlags) {
    match NameOf(a, i, fl)
    case Err(_) => false
    case Ok(fn) => SameName(name, if fl.noDir then BaseName(fn) else fn, fl.noCase)
  }

  /** How many entries a search looks at. */
  function SearchRange(a: Arch, fl: NameFlags): nat {
    if fl.original then (if a.cdir.Some? then |a.cdir.value| else 0) else |a.entries|
  }

  /** The first match at or after entry i. */
  function LocateFrom(a: Arch, i: nat, name: seq<byte>, fl: NameFlags): (r: Option<nat>)
    ensures r.Some? ==> i <= r.value < SearchRange(a, fl) && Matches(a, r.value, name, fl)
    ensures r.Some? ==> forall j | i <= j < r.value :: !Matches(a, j, name, fl)
    ensures r.None? ==> forall j | i <= j < SearchRange(a, fl) :: !Matches(a, j, name, fl)
    decreases SearchRange(a, fl) - i
  {
    if i >= SearchRange(a, fl) then None
    else if Matches(a, i, name, fl) then Some(i)
    else LocateFrom(a, i + 1, name, fl)
  }

  function Locate(a: Arch, name: seq<byte>, fl: NameFlags): Option<nat> {
    LocateFrom(a, 0, name, fl)
  }

  // ----- one function per call

  predicate ReadOnly(a: Arch) {
    a.chFlags & ZIP_AFL_RDONLY != 0
  }

  function WithEntry(a: Arch, i: nat, e: Entry): Arch
    requires i < |a.entries|
  {
    a.(entries := a.entries[i := e])
  }

  /** The comment an entry has now, unconverted; none is the empty one. */
  function RawComment(a: Arch, i: nat): Field
    requires i < |a.entries|
  {
    if a.entries[i].changes.comment.Some? then a.entries[i].changes.comment.value
    else if Original(a, i).Some? then Original(a, i).value.comment
    else []
  }

  /** The state an entry takes when it gets a new name. */
  function RenamedState(s: State): State {
    if s == Unchanged then Renamed else s
  }

  function SetName(a: Arch, i: nat, name: CString): (Arch, Error) {
    if i >= |a.entries| || Guess(name) == Cp437 then (a, Some(ErInval))
    else
      var at := Locate(a, name, DEFAULT);
      if at.Some? && at.value != i then (a, Some(ErExists))
      else if at == Some(i) then (a, None)
      else if Guess(RawComment(a, i)) == Cp437 && Guess(name) == Utf8 then (a, Some(ErEncMismatch))
      else
        var e := a.entries[i];
        (WithEntry(a, i, e.(state := RenamedState(e.state), changes := e.changes.(filename := Some(name)))), None)
  }

  function UnchangeData(e: Entry): Entry {
    e.(source := None, state := if e.changes.filename.Some? then Renamed else Unchanged)
  }

  /** The entry with new data behind it. */
  function WithSource(a: Arch, i: nat, source: DataSource): Arch
    requires i < |a.entries|
  {
    var e := UnchangeData(a.entries[i]);
    WithEntry(a, i, e.(state := if Original(a, i).None? then Added else Replaced, source := Some(source)))
  }

  /** The entry `_zip_replace` appends: only a compression method is set. */
  const FILLED_ENTRY := NEW_ENTRY.(changes := NO_CHANGES.(compMethod := Some(ZIP_CM_DEFLATE)))

  function Add(a: Arch, name: CString, source: DataSource): (Arch, Result<nat, ZipError>) {
    if ReadOnly(a) then (a, Err(ErRdOnly))
    else
      var grown := a.(entries := a.entries + [FILLED_ENTRY]);
      var (named, error) := SetName(grown, |a.entries|, name);
      if error.Some? then (a, Err(error.value)) else (WithSource(named, |a.entries|, source), Ok(|a.entries|))
  }

  function Replace(a: Arch, i: nat, source: DataSource): (Arch, Error) {
    if i >= |a.entries| then (a, Some(ErInval))
    else if ReadOnly(a) then (a, Some(ErRdOnly))
    else (WithSource(a, i, source), None)
  }

  /** Whether the original name of entry i is in use by another entry. */
  predicate OriginalNameTaken(a: Arch, i: nat) {
    match NameOf(a, i, ORIGINAL)
    case Err(_) => false
    case Ok(name) => var at := Locate(a, name, DEFAULT); at.Some? && at.value != i
  }

  function Unchange(a: Arch, i: nat, allowDuplicates: bool): (Arch, Error) {
    if i >= |a.entries| then (a, Some(ErInval))
    else if a.entries[i].changes.filename.Some? && !allowDuplicates && OriginalNameTaken(a, i) then (a, Some(ErExists))
    else (WithEntry(a, i, NEW_ENTRY), None)
  }

  function UnchangeArchive(a: Arch): Arch {
    a.(chComment := None, chFlags := a.flags)
  }

  function UnchangeAll(a: Arch): Arch {
    UnchangeArchive(a.(entries := seq(|a.entries|, _ => NEW_ENTRY)))
  }

  function Delete(a: Arch, i: nat): (Arch, Error) {
    if i >= |a.entries| then (a, Some(ErInval))
    else if ReadOnly(a) then (a, Some(ErRdOnly))
    else (WithEntry(a, i, NEW_ENTRY.(state := Deleted)), None)
  }

  predicate IsDir(name: seq<byte>) {
    name != [] && name[|name| - 1] == 0x2F
  }

  function Rename(a: Arch, i: nat, name: CString): (Arch, Error) {
    if i >= |a.entries| || |name| > 0xFFFF then (a, Some(ErInval))
    else if ReadOnly(a) then (a, Some(ErRdOnly))
    else match NameOf(a, i, DEFAULT)
      case Err(e) => (a, Some(e))
      case Ok(current) => if IsDir(name) != IsDir(current) then (a, Some(ErInval)) else SetName(a, i, name)
  }

  /** A string kept with a 16-bit length. */
  function Kept(s: seq<byte>): Field {
    s[..Low16(|s|)]
  }

  function SetFileComment(a: Arch, i: nat, comment: seq<byte>): (Arch, Error) {
    if i >= |a.entries| || |comment| > MAXCOMLEN then (a, Some(ErInval))
    else if ReadOnly(a) then (a, Some(ErRdOnly))
    else if Guess(comment) == Cp437 then (a, Some(ErInval))
    else match NameOf(a, i, RAW)
      case Err(e) => (a, Some(e))
      case Ok(name) =>
        if Guess(name) == Cp437 && Guess(comment) == Utf8 then (a, Some(ErEncMismatch))
        else
          var e := a.entries[i];
          (WithEntry(a, i, e.(changes := e.changes.(comment := Some(Kept(comment))))), None)
  }

  function SetFileExtra(a: Arch, i: nat, extra: seq<byte>): (Arch, Error) {
    if i >= |a.entries| || |extra| > MAXCOMLEN then (a, Some(ErInval))
    else if ReadOnly(a) then (a, Some(ErRdOnly))
    else
      var e := a.entries[i];
      (WithEntry(a, i, e.(changes := e.changes.(extra := Some(Kept(extra))))), None)
  }

  function SetFileCompression(a: Arch, i: nat, method_: int): (Arch, Error) {
    if i >= |a.entries| then (a, Some(ErInval))
    else if method_ != ZIP_CM_DEFAULT && method_ != ZIP_CM_STORE && method_ != ZIP_CM_DEFLATE then
      (a, Some(ErCompNotSupp))
    else if ReadOnly(a) then (a, Some(ErRdOnly))
    else
      var m := if method_ == ZIP_CM_DEFAULT then ZIP_CM_DEFLATE else method_;
      var e := a.entries[i];
      var same := Original(a, i).Some? && Original(a, i).value.compMethod == m;
      (WithEntry(a, i, e.(changes := e.changes.(compMethod := if same then None else Some(m)))), None)
  }

  function SetArchiveComment(a: Arch, comment: seq<byte>): (Arch, Error) {
    if |comment| > MAXCOMLEN then (a, Some(ErInval))
    else if ReadOnly(a) then (a, Some(ErRdOnly))
    else if Guess(comment) == Cp437 then (a, Some(ErInval))
    else (a.(chComment := Some(comment)), None)
  }

  /** `_zip_changed` */
  predicate Changed(a: Arch) {
    || a.chComment.Some?
    || a.chFlags != a.flags
    || exists i | 0 <= i < |a.entries| :: a.entries[i].state != Unchanged || a.entries[i].changes != NO_CHANGES
  }

  function Survivors(entries: seq<Entry>): nat {
    if entries == [] then 0
    else Survivors(entries[..|entries| - 1]) + if entries[|entries| - 1].state != Deleted then 1 else 0
  }

  function WithFlag(flags: bv32, flag: bv32, on: bool): bv32 {
    if on then flags | flag else flags & !flag
  }

  function SetArchiveFlag(a: Arch, flag: bv32, on: bool): (Arch, Error) {
    var flags := WithFlag(a.chFlags, flag, on);
    if flags == a.chFlags then (a, None)
    else if ReadOnly(a) then (a, Some(ErRdOnly))
    else if flag & ZIP_AFL_RDONLY != 0 && on && Changed(a) then (a, Some(ErChanged))
    else (a.(chFlags := flags), None)
  }

  // ----- histories

  datatype Op =
    | OpAdd(name: CString, source: DataSource)
    | OpReplace(i: nat, source: DataSource)
    | OpRename(i: nat, name: CString)
    | OpDelete(i: nat)
    | OpUnchange(i: nat)
    | OpUnchangeAll
    | OpUnchangeArchive
    | OpFileComment(i: nat, text: seq<byte>)
    | OpFileExtra(i: nat, text: seq<byte>)
    | OpFileCompression(i: nat, compMethod: int)
    | OpArchiveComment(text: seq<byte>)
    | OpArchiveFlag(flag: bv32, on: bool)

  /** One call: the archive after it, and the error if it failed. */
  function Call(a: Arch, op: Op): (Arch, Error) {
    match op
    case OpAdd(name, source) => var (b, r) := Add(a, name, source); (b, if r.Err? then Some(r.error) else None)
    case OpReplace(i, source) => Replace(a, i, source)
    case OpRename(i, name) => Rename(a, i, name)
    case OpDelete(i) => Delete(a, i)
    case OpUnchange(i) => Unchange(a, i, false)
    case OpUnchangeAll => (UnchangeAll(a), None)
    case OpUnchangeArchive => (UnchangeArchive(a), None)
    case OpFileComment(i, text) => SetFileComment(a, i, text)
    case OpFileExtra(i, text) => SetFileExtra(a, i, text)
    case OpFileCompression(i, m) => SetFileCompression(a, i, m)
    case OpArchiveComment(text) => SetArchiveComment(a, text)
    case OpArchiveFlag(flag, on) => SetArchiveFlag(a, flag, on)
  }

  function Step(a: Arch, op: Op): Arch {
    Call(a, op).0
  }

  function Run(a: Arch, ops: seq<Op>): Arch
    decreases |ops|
  {
    if ops == [] then a else Run(Step(a, ops[0]), ops[1..])
  }

  /** An archive as `_zip_open` hands it out. */
  predicate JustOpened(a: Arch) {
    && a.chFlags == a.flags
    && a.chComment == None
    && |a.entries| == (if a.cdir.Some? then |a.cdir.value| else 0)
    && forall i | 0 <= i < |a.entries| :: a.entries[i] == NEW_ENTRY
  }

  // ----- what every call keeps

  /** A call that fails changes nothing at all; in particular a failed add leaves the visible entries as before. */
  lemma FailedCallChangesNothing(a: Arch, op: Op)
    requires Call(a, op).1.Some?
    ensures Step(a, op) == a
  {
    hide Locate, NameOf, Guess, OriginalNameTaken, RawComment, Changed, Kept, IsDir;
  }

  /** How state, source and changes of entry number i go together. */
  predicate EntryOk(a: Arch, i: nat)
    requires i < |a.entries|
  {
    var e := a.entries[i];
    && (e.source.Some? <==> e.state == Added || e.state == Replaced)
    && (e.state == Renamed ==> e.changes.filename.Some?)
    && (e.state == Unchanged || e.state == Deleted ==> e.changes.filename.None?)
    && (e.changes.filename.Some? ==> Guess(e.changes.filename.value) != Cp437)
    && (e.state == Replaced ==> Original(a, i).Some?)
    && (e.state == Added ==> Original(a, i).None?)
  }

  predicate Consistent(a: Arch) {
    && (a.cdir.Some? ==> |a.cdir.value| <= |a.entries|)
    && forall i | 0 <= i < |a.entries| :: EntryOk(a, i)
  }

  /** Every call keeps states, sources and changes consistent. */
  lemma StepConsistent(a: Arch, op: Op)
    requires Consistent(a)
    ensures Consistent(Step(a, op))
  {
    hide Step, EntryOk, EntryFrom, Guess;
    StepEntries(a, op);
    var b := Step(a, op);
    forall i | 0 <= i < |b.entries|
      ensures EntryOk(b, i)
    {
      if i < |a.entries| {
        EntryStaysOk(a, b, i);
      } else {
        NewEntryOk(a, b);
      }
    }
  }

  lemma EntryStaysOk(a: Arch, b: Arch, i: nat)
    requires i < |a.entries| <= |b.entries| && a.cdir == b.cdir
    requires EntryOk(a, i) && EntryFrom(a, b, i, a.entries[i])
    ensures EntryOk(b, i)
  {
    hide Guess;
  }

  lemma NewEntryOk(a: Arch, b: Arch)
    requires a.cdir == b.cdir && |b.entries| == |a.entries| + 1 && (a.cdir.Some? ==> |a.cdir.value| <= |a.entries|)
    requires EntryFrom(a, b, |a.entries|, FILLED_ENTRY)
    ensures EntryOk(b, |a.entries|)
  {
    hide Guess;
  }

  /** What a call can make of the entries of a: nothing that is behind the end goes away, and each entry either stays,
      starts over, is deleted, is renamed, gets data, or gets other settings. */
  predicate EntriesFrom(a: Arch, b: Arch) {
    && b.cdir == a.cdir && b.flags == a.flags
    && |a.entries| <= |b.entries| <= |a.entries| + 1
    && (|b.entries| > |a.entries| ==> EntryFrom(a, b, |a.entries|, FILLED_ENTRY))
    && forall i | 0 <= i < |a.entries| :: EntryFrom(a, b, i, a.entries[i])
  }

  lemma StepEntries(a: Arch, op: Op)
    ensures EntriesFrom(a, Step(a, op))
  {
    hide Add, Replace, Rename, Locate, NameOf, Guess, OriginalNameTaken, RawComment, Changed, Kept, IsDir;
    match op {
      case OpAdd(name, source) => AddEntries(a, name, source);
      case OpReplace(i, source) => ReplaceEntries(a, i, source);
      case OpRename(i, name) => RenameEntries(a, i, name);
      case OpDelete(i) =>
      case OpUnchange(i) =>
      case OpUnchangeAll =>
      case OpUnchangeArchive =>
      case OpFileComment(i, text) =>
      case OpFileExtra(i, text) =>
      case OpFileCompression(i, m) =>
      case OpArchiveComment(text) =>
      case OpArchiveFlag(flag, on) =>
    }
  }

  lemma AddEntries(a: Arch, name: CString, source: DataSource)
    ensures EntriesFrom(a, Add(a, name, source).0)
  {
    hide Locate, NameOf, Guess, RawComment;
    var n := |a.entries|;
    var grown := a.(entries := a.entries + [FILLED_ENTRY]);
    var (named, error) := SetName(grown, n, name);
    if !ReadOnly(a) && error.None? {
      var b := WithSource(named, n, source);
      assert forall i | 0 <= i < n :: b.entries[i] == a.entries[i];
      assert EntryFrom(a, b, n, FILLED_ENTRY);
    }
  }

  lemma ReplaceEntries(a: Arch, i: nat, source: DataSource)
    ensures EntriesFrom(a, Replace(a, i, source).0)
  {
    hide Guess;
  }

  lemma RenameEntries(a: Arch, i: nat, name: CString)
    ensures EntriesFrom(a, Rename(a, i, name).0)
  {
    hide Locate, NameOf, Guess, RawComment, IsDir;
    Named(a, i);
  }

  lemma Named(a: Arch, i: nat)
    ensures NameOf(a, i, DEFAULT).Ok? ==> i < |a.entries| && a.entries[i].state != State.Deleted
  {
  }

  predicate EntryFrom(a: Arch, b: Arch, i: nat, e: Entry)
    requires i < |b.entries|
  {
    var f := b.entries[i];
    || f == e
    || f == NEW_ENTRY
    || f == NEW_ENTRY.(state := Deleted)
    || (e.state != Deleted && f.state == RenamedState(e.state) && f.source == e.source && NewNameIn(f))
    || (f.state == e.state && f.source == e.source && f.changes.filename == e.changes.filename)
    || (f.source.Some? && f.state == (if Original(a, i).None? then Added else Replaced)
        && (NewNameIn(f) || f.changes.filename == e.changes.filename))
  }

  /** A new name that is made of whole characters, which is what `_zip_set_name` asks for. */
  predicate NewNameIn(e: Entry) {
    e.changes.filename.Some? && Guess(e.changes.filename.value) != Cp437
  }

  lemma {:induction false} RunConsistent(a: Arch, ops: seq<Op>)
    requires JustOpened(a)
    ensures Consistent(Run(a, ops))
    ensures Run(a, ops).cdir == a.cdir && Run(a, ops).flags == a.flags
  {
    RunKeeps(a, ops);
  }

  lemma {:induction false} RunKeeps(a: Arch, ops: seq<Op>)
    requires Consistent(a)
    ensures Consistent(Run(a, ops)) && Run(a, ops).cdir == a.cdir && Run(a, ops).flags == a.flags
    ensures |Run(a, ops).entries| >= |a.entries|
    decreases |ops|
  {
    if ops != [] {
      StepConsistent(a, ops[0]);
      StepEntries(a, ops[0]);
      RunKeeps(Step(a, ops[0]), ops[1..]);
    }
  }

  // ----- undoing everything

  /** After any history, undoing all changes gives back every original entry as it was opened, under its original
      name, and nothing counts as changed. */
  lemma {:induction false} UnchangeAllRestores(a: Arch, ops: seq<Op>, fl: NameFlags)
    requires JustOpened(a)
    ensures var b := UnchangeAll(Run(a, ops));
      && !Changed(b)
      && |a.entries| <= |b.entries|
      && b.entries[..|a.entries|] == a.entries
      && (forall i | 0 <= i < |a.entries| :: NameOf(b, i, fl) == NameOf(a, i, fl))
      && (forall i | |a.entries| <= i < |b.entries| :: NameOf(b, i, fl).Err?)
  {
    RunKeeps(a, ops);
  }

  // ----- names stay distinct

  predicate HasName(a: Arch, i: nat, name: seq<byte>) {
    NameOf(a, i, DEFAULT) == Ok(name)
  }

  /** No two live entries have the same name. */
  ghost predicate Distinct(a: Arch) {
    forall i, j, name |
      0 <= i < |a.entries| && 0 <= j < |a.entries| && HasName(a, i, name) && HasName(a, j, name) :: i == j
  }

  predicate OriginalsDistinct(cdir: Option<seq<Dirent>>) {
    cdir.Some? ==>
      forall i, j | 0 <= i < |cdir.value| && 0 <= j < |cdir.value| && i != j ::
        DisplayName(cdir.value[i], DEFAULT) != DisplayName(cdir.value[j], DEFAULT)
  }

  /** Only entry k is different. */
  predicate DiffersAt(a: Arch, b: Arch, k: nat) {
    && k < |a.entries| == |b.entries| && a.cdir == b.cdir
    && forall i | 0 <= i < |a.entries| && i != k :: b.entries[i] == a.entries[i]
  }

  /** The call brings a deleted entry back while another entry has its original name: `zip_replace` and
      `zip_unchange` do not look for that. */
  predicate RevivesTakenName(a: Arch, op: Op) {
    && (op.OpReplace? || op.OpUnchange?)
    && op.i < |a.entries|
    && a.entries[op.i].state == State.Deleted
    && (op.OpReplace? ==> !ReadOnly(a))
    && Original(a, op.i).Some?
    && Locate(a, DisplayName(Original(a, op.i).value, DEFAULT), DEFAULT).Some?
  }

  lemma LocateFinds(a: Arch, name: seq<byte>)
    ensures var at := Locate(a, name, DEFAULT);
      if at.Some? then
        at.value < |a.entries| && HasName(a, at.value, name) && forall j | 0 <= j < at.value :: !HasName(a, j, name)
      else forall j | 0 <= j < |a.entries| :: !HasName(a, j, name)
  {
    forall j | 0 <= j < |a.entries|
      ensures Matches(a, j, name, DEFAULT) <==> HasName(a, j, name)
    {
    }
  }

  /** Changing entry k gives it at most the name `name`, which nobody else has. */
  lemma OneNameChanges(a: Arch, b: Arch, k: nat, name: seq<byte>)
    requires Distinct(a) && a.cdir == b.cdir && k < |b.entries| && |a.entries| <= |b.entries|
    requires forall i | 0 <= i < |b.entries| && i != k :: i < |a.entries| && b.entries[i] == a.entries[i]
    requires NameOf(b, k, DEFAULT).Ok? ==> NameOf(b, k, DEFAULT).value == name
    requires forall j | 0 <= j < |a.entries| && j != k :: !HasName(a, j, name)
    ensures Distinct(b)
  {
    forall i, j, n | 0 <= i < |b.entries| && 0 <= j < |b.entries| && HasName(b, i, n) && HasName(b, j, n)
      ensures i == j
    {
      assert i != k ==> HasName(a, i, n);
      assert j != k ==> HasName(a, j, n);
    }
  }

  lemma SetNameDistinct(a: Arch, k: nat, name: CString)
    requires Distinct(a)
    ensures Distinct(SetName(a, k, name).0)
  {
    hide Guess, RawComment;
    LocateFinds(a, name);
    var b := SetName(a, k, name).0;
    if b != a {
      OneNameChanges(a, b, k, name);
    }
  }

  /** An entry that keeps its changed name, or lack of one, keeps its name. */
  lemma SameNameKept(a: Arch, b: Arch, k: nat)
    requires Distinct(a) && DiffersAt(a, b, k)
    requires NameOf(b, k, DEFAULT) == NameOf(a, k, DEFAULT) || NameOf(b, k, DEFAULT).Err?
    ensures Distinct(b)
  {
    if NameOf(b, k, DEFAULT).Ok? {
      var name := NameOf(b, k, DEFAULT).value;
      assert HasName(a, k, name);
      OneNameChanges(a, b, k, name);
    } else {
      FreshName(a, b, k);
    }
  }

  lemma FreshName(a: Arch, b: Arch, k: nat)
    requires Distinct(a) && DiffersAt(a, b, k)
    requires NameOf(b, k, DEFAULT).Err?
    ensures Distinct(b)
  {
    forall i, j, n | 0 <= i < |b.entries| && 0 <= j < |b.entries| && HasName(b, i, n) && HasName(b, j, n)
      ensures i == j
    {
      assert i != k && j != k;
      assert HasName(a, i, n) && HasName(a, j, n);
    }
  }

  /** Giving entry k its original name back is safe exactly when no other entry has that name. */
  lemma OriginalNameBack(a: Arch, b: Arch, k: nat)
    requires Distinct(a) && DiffersAt(a, b, k)
    requires b.entries[k].state != State.Deleted && b.entries[k].changes.filename.None?
    ensures var o := Original(a, k);
      Distinct(b) <==>
      !(o.Some? && exists j :: 0 <= j < |a.entries| && j != k && HasName(a, j, DisplayName(o.value, DEFAULT)))
  {
    var o := Original(a, k);
    if o.Some? {
      var name := DisplayName(o.value, DEFAULT);
      assert HasName(b, k, name);
      if j :| 0 <= j < |a.entries| && j != k && HasName(a, j, name) {
        assert HasName(b, j, name);
      } else {
        OneNameChanges(a, b, k, name);
      }
    } else {
      FreshName(a, b, k);
    }
  }

  /** From distinct names, a call leaves distinct names exactly when it does not revive a deleted entry whose
      original name has been taken meanwhile. */
  lemma {:induction false} StepDistinct(a: Arch, op: Op)
    requires Consistent(a) && Distinct(a) && OriginalsDistinct(a.cdir)
    ensures Distinct(Step(a, op)) <==> !RevivesTakenName(a, op)
  {
    match op {
      case OpAdd(name, source) => AddDistinct(a, name, source);
      case OpReplace(i, source) => ReplaceDistinct(a, i, source);
      case OpUnchange(i) => UnchangeDistinct(a, i);
      case OpUnchangeAll => UnchangeAllDistinct(a);
      case _ => OtherDistinct(a, op);
    }
  }

  lemma AddDistinct(a: Arch, name: CString, source: DataSource)
    requires Distinct(a) && (a.cdir.Some? ==> |a.cdir.value| <= |a.entries|)
    ensures Distinct(Add(a, name, source).0)
  {
    var n := |a.entries|;
    var grown := a.(entries := a.entries + [FILLED_ENTRY]);
    assert NameOf(grown, n, DEFAULT).Err?;
    forall i, j, m |
      0 <= i < |grown.entries| && 0 <= j < |grown.entries| && HasName(grown, i, m) && HasName(grown, j, m)
      ensures i == j
    {
      assert i < n && j < n;
      assert HasName(a, i, m) && HasName(a, j, m);
    }
    SetNameDistinct(grown, n, name);
    var named := SetName(grown, n, name).0;
    var b := WithSource(named, n, source);
    assert named.entries[n].state != State.Deleted;
    SameNameKept(named, b, n);
  }

  lemma ReplaceDistinct(a: Arch, i: nat, source: DataSource)
    requires Consistent(a) && Distinct(a)
    ensures Distinct(Replace(a, i, source).0) <==> !RevivesTakenName(a, OpReplace(i, source))
  {
    if i < |a.entries| && !ReadOnly(a) {
      var b := Replace(a, i, source).0;
      assert EntryOk(a, i);
      if a.entries[i].state == State.Deleted {
        assert NameOf(a, i, DEFAULT).Err?;
        OriginalNameBack(a, b, i);
        if Original(a, i).Some? {
          LocateFinds(a, DisplayName(Original(a, i).value, DEFAULT));
        }
      } else {
        SameNameKept(a, b, i);
      }
    }
  }

  lemma UnchangeDistinct(a: Arch, i: nat)
    requires Consistent(a) && Distinct(a)
    ensures Distinct(Unchange(a, i, false).0) <==> !RevivesTakenName(a, OpUnchange(i))
  {
    if i < |a.entries| {
      var b := Unchange(a, i, false).0;
      assert EntryOk(a, i);
      if b != a {
        OriginalNameBack(a, b, i);
        if Original(a, i).Some? {
          var name := DisplayName(Original(a, i).value, DEFAULT);
          LocateFinds(a, name);
          assert NameOf(a, i, ORIGINAL) == Ok(name);
          if a.entries[i].state != State.Deleted && a.entries[i].changes.filename.None? {
            assert HasName(a, i, name);
          }
        }
      }
    }
  }

  lemma UnchangeAllDistinct(a: Arch)
    requires OriginalsDistinct(a.cdir)
    ensures Distinct(UnchangeAll(a))
  {
    var b := UnchangeAll(a);
    forall i, j, n | 0 <= i < |b.entries| && 0 <= j < |b.entries| && HasName(b, i, n) && HasName(b, j, n)
      ensures i == j
    {
      assert Original(a, i).Some? && Original(a, j).Some?;
      assert DisplayName(a.cdir.value[i], DEFAULT) == DisplayName(a.cdir.value[j], DEFAULT);
    }
  }

  lemma OtherDistinct(a: Arch, op: Op)
    requires Distinct(a)
    requires !op.OpAdd? && !op.OpReplace? && !op.OpUnchange? && !op.OpUnchangeAll?
    ensures Distinct(Step(a, op))
  {
    hide Guess, RawComment, Locate, Changed, Kept;
    var b := Step(a, op);
    match op {
      case OpRename(i, name) =>
        SetNameDistinct(a, i, name);
      case OpUnchangeArchive => SameEntries(a, b);
      case OpArchiveComment(_) => SameEntries(a, b);
      case OpArchiveFlag(_, _) => SameEntries(a, b);
      case OpDelete(i) => OneEntryDistinct(a, b, i);
      case OpFileComment(i, _) => OneEntryDistinct(a, b, i);
      case OpFileExtra(i, _) => OneEntryDistinct(a, b, i);
      case OpFileCompression(i, _) => OneEntryDistinct(a, b, i);
    }
  }

  lemma OneEntryDistinct(a: Arch, b: Arch, k: nat)
    requires Distinct(a)
    requires b == a ||
      (DiffersAt(a, b, k) && (NameOf(b, k, DEFAULT) == NameOf(a, k, DEFAULT) || NameOf(b, k, DEFAULT).Err?))
    ensures Distinct(b)
  {
    if b != a {
      SameNameKept(a, b, k);
    }
  }

  lemma SameEntries(a: Arch, b: Arch)
    requires Distinct(a) && a.cdir == b.cdir && a.entries == b.entries
    ensures Distinct(b)
  {
    forall i, j, n | 0 <= i < |b.entries| && 0 <= j < |b.entries| && HasName(b, i, n) && HasName(b, j, n)
      ensures i == j
    {
      assert HasName(a, i, n) && HasName(a, j, n);
    }
  }

  /** No call of the history revives a deleted entry whose name is taken at that moment. */
  predicate NeverRevivesTaken(a: Arch, ops: seq<Op>)
    decreases |ops|
  {
    ops == [] || (!RevivesTakenName(a, ops[0]) && NeverRevivesTaken(Step(a, ops[0]), ops[1..]))
  }

  /** Over every history from distinct original names: the names of live entries stay pairwise distinct. */
  lemma {:induction false} NamesStayDistinct(a: Arch, ops: seq<Op>)
    requires JustOpened(a) && OriginalsDistinct(a.cdir) && NeverRevivesTaken(a, ops)
    ensures Distinct(Run(a, ops))
  {
    UnchangeAllDistinct(a);
    assert UnchangeAll(a).entries == a.entries;
    SameEntries(UnchangeAll(a), a);
    RunDistinct(a, ops);
  }

  lemma {:induction false} RunDistinct(a: Arch, ops: seq<Op>)
    requires Consistent(a) && Distinct(a) && OriginalsDistinct(a.cdir) && NeverRevivesTaken(a, ops)
    ensures Distinct(Run(a, ops))
    decreases |ops|
  {
    if ops != [] {
      StepDistinct(a, ops[0]);
      StepConsistent(a, ops[0]);
      StepEntries(a, ops[0]);
      RunDistinct(Step(a, ops[0]), ops[1..]);
    }
  }

  /** A history that ends in two entries called "a": "a" is deleted, "b" takes its name, and "a" is undeleted. */
  lemma RevivalExample() returns (a: Arch, ops: seq<Op>)
    ensures JustOpened(a) && OriginalsDistinct(a.cdir)
    ensures !Distinct(Run(a, ops))
  {
    hide Guess, Locate, HasBit, InitDirent, Distinct, Run;
    PlainLetters();
    var d := InitDirent(DosTime(0, 0));
    var first, second := d.(filename := [0x61]), d.(filename := [0x62]);
    a := Arch(0, 0, None, Some([first, second]), [NEW_ENTRY, NEW_ENTRY]);
    ops := [OpDelete(0), OpRename(1, [0x61]), OpUnchange(0)];
    RunThree(a, ops[0], ops[1], ops[2]);
    var a1 := Step(a, ops[0]);
    assert a1 == a.(entries := [NEW_ENTRY.(state := State.Deleted), NEW_ENTRY]);
    LocateFinds(a1, [0x61]);
    var a2 := Step(a1, ops[1]);
    var renamed := Entry(Renamed, None, NO_CHANGES.(filename := Some([0x61])));
    assert a2.entries == [NEW_ENTRY.(state := State.Deleted), renamed];
    var a3 := Step(a2, ops[2]);
    assert HasName(a3, 0, [0x61]) && HasName(a3, 1, [0x61]);
    TwoNames(a3, 0, 1, [0x61]);
  }

  lemma PlainLetters()
    ensures Guess([]) == Ascii && Guess([0x61]) == Ascii && Guess([0x62]) == Ascii
  {
  }

  lemma RunThree(a: Arch, x: Op, y: Op, z: Op)
    ensures Run(a, [x, y, z]) == Step(Step(Step(a, x), y), z)
  {
    hide Step;
    assert [x, y, z][1..] == [y, z] && [y, z][1..] == [z] && [z][1..] == [];
    assert Run(Step(Step(a, x), y), [z]) == Step(Step(Step(a, x), y), z);
  }

  lemma TwoNames(a: Arch, i: nat, j: nat, name: seq<byte>)
    requires i < j < |a.entries| && HasName(a, i, name) && HasName(a, j, name)
    ensures !Distinct(a)
  {
  }

  /** A read-only archive only ever goes back to its original state. */
  lemma ReadOnlyFrozen(a: Arch, op: Op)
    requires ReadOnly(a) && !op.OpUnchange? && !op.OpUnchangeAll? && !op.OpUnchangeArchive?
    ensures Step(a, op) == a
  {
    hide Locate, NameOf, Guess, RawComment, Changed, Kept, IsDir;
  }
}
