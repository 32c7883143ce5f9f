/** What is pending for an entry after any calls: what the last one that concerns it said. */
module Pending {
  import opened Bytes
  import opened Dirents
  import opened Encodings
  import opened ArchiveModel

  /** Call number k of a history succeeds. */
  predicate Succeeds(a: Arch, ops: seq<Op>, k: nat)
    requires k < |ops|
  {
    Call(Run(a, ops[..k]), ops[k]).1.None?
  }

  /** The calls that throw away all settings of entry i. */
  predicate StartsOver(op: Op, i: nat) {
    op == OpDelete(i) || op == OpUnchange(i) || op == OpUnchangeAll
  }

  /** The call adds entry i to an archive that ops have led to. */
  predicate Adds(a: Arch, ops: seq<Op>, op: Op, i: nat) {
    op.OpAdd? && i == |Run(a, ops).entries|
  }

  /** The comment that the last successful comment call on entry i gave it, if no later one started it over. */
  function LastComment(a: Arch, ops: seq<Op>, i: nat): Option<Field>
    decreases |ops|
  {
    if ops == [] then None
    else
      var n := |ops| - 1;
      var (earlier, op) := (ops[..n], ops[n]);
      if !Succeeds(a, ops, n) then LastComment(a, earlier, i)
      else if StartsOver(op, i) then None
      else if op.OpFileComment? && op.i == i then Some(op.text[..|op.text| % 0x1_0000])
      else LastComment(a, earlier, i)
  }

  function LastExtra(a: Arch, ops: seq<Op>, i: nat): Option<Field>
    decreases |ops|
  {
    if ops == [] then None
    else
      var n := |ops| - 1;
      var (earlier, op) := (ops[..n], ops[n]);
      if !Succeeds(a, ops, n) then LastExtra(a, earlier, i)
      else if StartsOver(op, i) then None
      else if op.OpFileExtra? && op.i == i then Some(op.text[..|op.text| % 0x1_0000])
      else LastExtra(a, earlier, i)
  }

  /** The method asked for, unless it is the one the entry has; a new entry is to be deflated. */
  function LastMethod(a: Arch, ops: seq<Op>, i: nat): Option<int>
    decreases |ops|
  {
    if ops == [] then None
    else
      var n := |ops| - 1;
      var (earlier, op) := (ops[..n], ops[n]);
      if !Succeeds(a, ops, n) then LastMethod(a, earlier, i)
      else if StartsOver(op, i) then None
      else if Adds(a, earlier, op, i) then Some(8)
      else if op.OpFileCompression? && op.i == i then
        var m := if op.compMethod == -1 then 8 else op.compMethod;
        if Original(a, i).Some? && Original(a, i).value.compMethod == m then None else Some(m)
      else LastMethod(a, earlier, i)
  }

  /** The new name; giving an entry the name it has is no change. */
  function LastName(a: Arch, ops: seq<Op>, i: nat): Option<CString>
    decreases |ops|
  {
    if ops == [] then None
    else
      var n := |ops| - 1;
      var (earlier, op) := (ops[..n], ops[n]);
      if !Succeeds(a, ops, n) then LastName(a, earlier, i)
      else if StartsOver(op, i) then None
      else if Adds(a, earlier, op, i) then Some(op.name)
      else if op.OpRename? && op.i == i && !HasName(Run(a, earlier), i, op.name) then Some(op.name)
      else LastName(a, earlier, i)
  }

  function LastSource(a: Arch, ops: seq<Op>, i: nat): Option<DataSource>
    decreases |ops|
  {
    if ops == [] then None
    else
      var n := |ops| - 1;
      var (earlier, op) := (ops[..n], ops[n]);
      if !Succeeds(a, ops, n) then LastSource(a, earlier, i)
      else if StartsOver(op, i) then None
      else if Adds(a, earlier, op, i) || (op.OpReplace? && op.i == i) then Some(op.source)
      else LastSource(a, earlier, i)
  }

  /** Entry i was deleted, and neither undone nor replaced since. */
  predicate IsDeleted(a: Arch, ops: seq<Op>, i: nat)
    decreases |ops|
  {
    ops != [] &&
    var n := |ops| - 1;
    var (earlier, op) := (ops[..n], ops[n]);
    if !Succeeds(a, ops, n) then IsDeleted(a, earlier, i)
    else if op == OpDelete(i) then true
    else if op == OpUnchange(i) || op == OpUnchangeAll || (op.OpReplace? && op.i == i) then false
    else IsDeleted(a, earlier, i)
  }

  // ----- one call

  /** Entry i, or an untouched one behind the end. */
  function EntryAt(a: Arch, i: nat): Entry {
    if i < |a.entries| then a.entries[i] else NEW_ENTRY
  }

  lemma RunLast(a: Arch, ops: seq<Op>)
    requires ops != []
    ensures var n := |ops| - 1; Run(a, ops) == Step(Run(a, ops[..n]), ops[n])
    decreases |ops|
  {
    hide Step;
    if |ops| > 1 {
      RunLast(Step(a, ops[0]), ops[1..]);
      var n := |ops| - 1;
      assert ops[1..][..n - 1] == ops[..n][1..];
    }
  }

  /** Each part of entry i after a successful call: as that call says, or as before. */
  predicate Says(a: Arch, b: Arch, op: Op, i: nat) {
    var (e, f) := (EntryAt(a, i), EntryAt(b, i));
    var added := op.OpAdd? && i == |a.entries|;
    if StartsOver(op, i) then f == NEW_ENTRY.(state := if op == OpDelete(i) then State.Deleted else Unchanged)
    else
      && f.changes.comment == (if op.OpFileComment? && op.i == i then Some(Kept(op.text)) else e.changes.comment)
      && f.changes.extra == (if op.OpFileExtra? && op.i == i then Some(Kept(op.text)) else e.changes.extra)
      && f.changes.compMethod == (
        if added then Some(8)
        else if op.OpFileCompression? && op.i == i then
          var m := if op.compMethod == -1 then 8 else op.compMethod;
          if Original(a, i).Some? && Original(a, i).value.compMethod == m then None else Some(m)
        else e.changes.compMethod)
      && f.changes.filename == (
        if added || (op.OpRename? && op.i == i && !HasName(a, i, op.name)) then Some(op.name) else e.changes.filename)
      && f.source == (if added || (op.OpReplace? && op.i == i) then Some(op.source) else e.source)
      && (f.state == State.Deleted <==> e.state == State.Deleted && !(op.OpReplace? && op.i == i))
  }

  lemma StepSays(a: Arch, op: Op, i: nat)
    requires Call(a, op).1.None? && Consistent(a)
    ensures Says(a, Step(a, op), op, i) && Step(a, op).cdir == a.cdir
  {
    hide Says, Add, Rename, Replace, Unchange, Delete, SetFileComment, SetFileExtra, SetFileCompression, Guess, EntryOk;
    match op {
      case OpAdd(name, source) => AddSays(a, name, source, i);
      case OpRename(k, name) => RenameSays(a, k, name, i);
      case OpFileComment(_, _) => SettingSays(a, op, i);
      case OpFileExtra(_, _) => SettingSays(a, op, i);
      case OpFileCompression(_, _) => SettingSays(a, op, i);
      case _ => StateSays(a, op, i);
    }
  }

  lemma SettingSays(a: Arch, op: Op, i: nat)
    requires Call(a, op).1.None? && (op.OpFileComment? || op.OpFileExtra? || op.OpFileCompression?)
    ensures Says(a, Step(a, op), op, i) && Step(a, op).cdir == a.cdir
  {
    hide NameOf, Guess, Kept, HasName;
  }

  lemma StateSays(a: Arch, op: Op, i: nat)
    requires Call(a, op).1.None?
    requires !op.OpAdd? && !op.OpRename? && !op.OpFileComment? && !op.OpFileExtra? && !op.OpFileCompression?
    ensures Says(a, Step(a, op), op, i) && Step(a, op).cdir == a.cdir
  {
    hide Guess, OriginalNameTaken, Changed, Kept, HasName;
  }

  lemma AddSays(a: Arch, name: CString, source: DataSource, i: nat)
    requires Add(a, name, source).1.Ok? && (a.cdir.Some? ==> |a.cdir.value| <= |a.entries|)
    ensures Says(a, Add(a, name, source).0, OpAdd(name, source), i) && Add(a, name, source).0.cdir == a.cdir
  {
    hide NameOf, Guess, RawComment, Locate, HasName;
    var n := |a.entries|;
    var grown := a.(entries := a.entries + [FILLED_ENTRY]);
    LocateFinds(grown, name);
    Nameless(grown, n, name);
  }

  /** An entry that has just been appended has no name. */
  lemma Nameless(grown: Arch, n: nat, name: seq<byte>)
    requires n < |grown.entries| && grown.entries[n] == FILLED_ENTRY && Original(grown, n).None?
    ensures !HasName(grown, n, name)
  {
  }

  lemma RenameSays(a: Arch, k: nat, name: CString, i: nat)
    requires Rename(a, k, name).1.None?
    ensures Says(a, Rename(a, k, name).0, OpRename(k, name), i) && Rename(a, k, name).0.cdir == a.cdir
  {
    hide NameOf, Guess, RawComment, Locate, IsDir, HasName;
    LocateFinds(a, name);
  }

  // ----- any history

  /** Call number n of the history, after the others. */
  lemma CallSays(a: Arch, ops: seq<Op>, i: nat)
    requires ops != [] && JustOpened(a)
    ensures var n := |ops| - 1;
      var before, after := Run(a, ops[..n]), Run(a, ops);
      && before.cdir == after.cdir == a.cdir
      && if Succeeds(a, ops, n) then Says(before, after, ops[n], i) else after == before
  {
    hide Run, Says, Call, JustOpened, Consistent;
    var n := |ops| - 1;
    RunLast(a, ops);
    RunConsistent(a, ops[..n]);
    RunConsistent(a, ops);
    if Succeeds(a, ops, n) {
      StepSays(Run(a, ops[..n]), ops[n], i);
    } else {
      FailedCallChangesNothing(Run(a, ops[..n]), ops[n]);
    }
  }

  /** After any history, everything pending for an entry is what the last call that concerns it said: through adds,
      renames, replacements and calls on other entries. */
  lemma {:induction false} LastCallsCount(a: Arch, ops: seq<Op>, i: nat)
    requires JustOpened(a)
    ensures var e := EntryAt(Run(a, ops), i);
      && e.changes.comment == LastComment(a, ops, i)
      && e.changes.extra == LastExtra(a, ops, i)
      && e.changes.compMethod == LastMethod(a, ops, i)
      && e.changes.filename == LastName(a, ops, i)
      && e.source == LastSource(a, ops, i)
      && (e.state == State.Deleted <==> IsDeleted(a, ops, i))
    decreases |ops|
  {
    hide Run, HasName, Call, Succeeds;
    if ops == [] {
      RunNothing(a);
    } else {
      var n := |ops| - 1;
      LastCallsCount(a, ops[..n], i);
      CallSays(a, ops, i);
    }
  }

  lemma RunNothing(a: Arch)
    ensures Run(a, []) == a
  {
  }

  // ----- the archive's own settings

  function LastArchiveComment(a: Arch, ops: seq<Op>): Option<seq<byte>>
    decreases |ops|
  {
    if ops == [] then None
    else
      var n := |ops| - 1;
      var (earlier, op) := (ops[..n], ops[n]);
      if op.OpUnchangeAll? || op.OpUnchangeArchive? then None
      else if op.OpArchiveComment? && Succeeds(a, ops, n) then Some(op.text)
      else LastArchiveComment(a, earlier)
  }

  function LastFlags(a: Arch, ops: seq<Op>): bv32
    decreases |ops|
  {
    if ops == [] then a.flags
    else
      var n := |ops| - 1;
      var (earlier, op) := (ops[..n], ops[n]);
      if op.OpUnchangeAll? || op.OpUnchangeArchive? then a.flags
      else if op.OpArchiveFlag? && Succeeds(a, ops, n) then
        WithFlag(LastFlags(a, earlier), op.flag, op.on)
      else LastFlags(a, earlier)
  }

  lemma StepArchive(a: Arch, op: Op)
    requires Call(a, op).1.None?
    ensures var b, undone := Step(a, op), op.OpUnchangeAll? || op.OpUnchangeArchive?;
      && b.flags == a.flags
      && b.chComment == (if undone then None else if op.OpArchiveComment? then Some(op.text) else a.chComment)
      && b.chFlags == (
        if undone then a.flags
        else if op.OpArchiveFlag? then WithFlag(a.chFlags, op.flag, op.on)
        else a.chFlags)
  {
    hide NameOf, Guess, Locate, OriginalNameTaken, RawComment, Kept, IsDir, WithFlag, SetArchiveFlag, ReadOnly;
    if op.OpArchiveFlag? {
      StepFlag(a, op.flag, op.on);
    }
  }

  lemma StepFlag(a: Arch, flag: bv32, on: bool)
    requires SetArchiveFlag(a, flag, on).1.None?
    ensures var b := SetArchiveFlag(a, flag, on).0; b == a.(chFlags := WithFlag(a.chFlags, flag, on))
  {
    hide Changed, ReadOnly, WithFlag;
  }

  /** Setting flags sets those and no others. */
  lemma FlagSet(flags: bv32, flag: bv32)
    ensures WithFlag(flags, flag, true) & flag == flag && WithFlag(flags, flag, true) & !flag == flags & !flag
  {
  }

  /** Clearing them clears those and no others. */
  lemma FlagCleared(flags: bv32, flag: bv32)
    ensures WithFlag(flags, flag, false) & flag == 0 && WithFlag(flags, flag, false) & !flag == flags & !flag
  {
  }

  /** The same for the archive. */
  lemma {:induction false} LastArchiveCallsCount(a: Arch, ops: seq<Op>)
    requires JustOpened(a)
    ensures Run(a, ops).chComment == LastArchiveComment(a, ops) && Run(a, ops).chFlags == LastFlags(a, ops)
    decreases |ops|
  {
    hide Run, Call, WithFlag;
    if ops == [] {
      RunNothing(a);
    } else {
      var n := |ops| - 1;
      LastArchiveCallsCount(a, ops[..n]);
      RunLast(a, ops);
      RunConsistent(a, ops[..n]);
      var op := ops[n];
      if Succeeds(a, ops, n) {
        StepArchive(Run(a, ops[..n]), op);
      } else {
        FailedCallChangesNothing(Run(a, ops[..n]), op);
        NeverRefused(Run(a, ops[..n]), op);
      }
    }
  }

  lemma NeverRefused(a: Arch, op: Op)
    ensures op.OpUnchangeAll? || op.OpUnchangeArchive? ==> Call(a, op).1.None?
  {
  }

  // ----- which calls are refused

  /** Another entry, the first of that name, has it. */
  ghost predicate TakenByOther(a: Arch, i: nat, name: seq<byte>) {
    exists j :: 0 <= j < |a.entries| && j != i && HasName(a, j, name) && (j < i || !HasName(a, i, name))
  }

  ghost predicate Untouched(a: Arch) {
    && a.chComment == None && a.chFlags == a.flags
    && forall i | 0 <= i < |a.entries| :: a.entries[i] == NEW_ENTRY.(source := a.entries[i].source)
  }

  predicate EndsInSlash(name: seq<byte>) {
    |name| > 0 && name[|name| - 1] == 0x2F
  }

  /** The error of each call, on what can be seen of the archive. */
  ghost function Refusal(a: Arch, op: Op): Error {
    match op
    case OpAdd(name, _) =>
      if ReadOnly(a) then Some(ErRdOnly)
      else if Guess(name) == Cp437 then Some(ErInval)
      else if exists j :: 0 <= j < |a.entries| && HasName(a, j, name) then Some(ErExists)
      else None
    case OpRename(i, name) =>
      if i >= |a.entries| || |name| >= 0x1_0000 then Some(ErInval)
      else if ReadOnly(a) then Some(ErRdOnly)
      else if a.entries[i].state == State.Deleted then Some(ErDeleted)
      else if a.entries[i].changes.filename.None? && Original(a, i).None? then Some(ErInval)
      else if EndsInSlash(name) != EndsInSlash(NameOf(a, i, DEFAULT).value) then Some(ErInval)
      else if Guess(name) == Cp437 then Some(ErInval)
      else if TakenByOther(a, i, name) then Some(ErExists)
      else if !HasName(a, i, name) && Guess(name) == Utf8 && Guess(RawComment(a, i)) == Cp437 then Some(ErEncMismatch)
      else None
    case OpUnchange(i) =>
      if i >= |a.entries| then Some(ErInval)
      else if
        && a.entries[i].changes.filename.Some? && Original(a, i).Some?
        && TakenByOther(a, i, DisplayName(Original(a, i).value, DEFAULT)) then Some(ErExists)
      else None
    case OpReplace(i, _) => if i >= |a.entries| then Some(ErInval) else if ReadOnly(a) then Some(ErRdOnly) else None
    case OpDelete(i) => if i >= |a.entries| then Some(ErInval) else if ReadOnly(a) then Some(ErRdOnly) else None
    case OpFileComment(i, text) =>
      if i >= |a.entries| || |text| > 65536 then Some(ErInval)
      else if ReadOnly(a) then Some(ErRdOnly)
      else if Guess(text) == Cp437 then Some(ErInval)
      else if a.entries[i].state == State.Deleted then Some(ErDeleted)
      else if a.entries[i].changes.filename.None? && Original(a, i).None? then Some(ErInval)
      else if
        && Guess(text) == Utf8 && a.entries[i].changes.filename.None?
        && Guess(Original(a, i).value.filename) == Cp437 then Some(ErEncMismatch)
      else None
    case OpFileExtra(i, text) =>
      if i >= |a.entries| || |text| > 65536 then Some(ErInval) else if ReadOnly(a) then Some(ErRdOnly) else None
    case OpFileCompression(i, m) =>
      if i >= |a.entries| then Some(ErInval)
      else if m != -1 && m != 0 && m != 8 then Some(ErCompNotSupp)
      else if ReadOnly(a) then Some(ErRdOnly)
      else None
    case OpArchiveComment(text) =>
      if |text| > 65536 then Some(ErInval)
      else if ReadOnly(a) then Some(ErRdOnly)
      else if Guess(text) == Cp437 then Some(ErInval)
      else None
    case OpArchiveFlag(flag, on) =>
      if WithFlag(a.chFlags, flag, on) == a.chFlags then None
      else if ReadOnly(a) then Some(ErRdOnly)
      else if on && flag & 2 != 0 && !Untouched(a) then Some(ErChanged)
      else None
    case _ => None
  }

  /** Every call is refused exactly as this says. */
  lemma RefusedExactly(a: Arch, op: Op)
    requires Consistent(a)
    ensures Call(a, op).1 == Refusal(a, op)
  {
    hide Guess, Add, Rename, HasName, NameOf, Locate, RawComment, DisplayName;
    match op {
      case OpAdd(name, source) => AddRefusal(a, name, source);
      case OpRename(i, name) => RenameRefusal(a, i, name);
      case OpUnchange(i) => UnchangeRefusal(a, i);
      case OpFileComment(i, text) => CommentRefusal(a, i, text);
      case OpArchiveFlag(flag, on) => FlagRefusal(a, flag, on);
      case _ =>
    }
  }

  lemma AddRefusal(a: Arch, name: CString, source: DataSource)
    requires Consistent(a)
    ensures Call(a, OpAdd(name, source)).1 == Refusal(a, OpAdd(name, source))
  {
    hide Guess, Locate, DisplayName, RawComment, EntryOk;
    var n := |a.entries|;
    var grown := a.(entries := a.entries + [FILLED_ENTRY]);
    LocateFinds(grown, name);
    Nameless(grown, n, name);
    assert forall i | 0 <= i < n :: HasName(grown, i, name) <==> HasName(a, i, name);
    NoComment(grown, n);
  }

  lemma NoComment(grown: Arch, n: nat)
    requires n < |grown.entries| && grown.entries[n] == FILLED_ENTRY && Original(grown, n).None?
    ensures Guess(RawComment(grown, n)) == Ascii
  {
  }

  lemma Located(a: Arch, i: nat, name: seq<byte>)
    ensures var at := Locate(a, name, DEFAULT);
      && (TakenByOther(a, i, name) <==> at.Some? && at.value != i)
      && (at == Some(i) ==> HasName(a, i, name))
      && (i < |a.entries| && HasName(a, i, name) && !TakenByOther(a, i, name) ==> at == Some(i))
  {
    hide HasName, Locate;
    LocateFinds(a, name);
  }

  lemma RenameRefusal(a: Arch, i: nat, name: CString)
    ensures Call(a, OpRename(i, name)).1 == Refusal(a, OpRename(i, name))
  {
    hide Guess, Locate, RawComment, DisplayName, TakenByOther;
    Located(a, i, name);
  }

  lemma UnchangeRefusal(a: Arch, i: nat)
    ensures Call(a, OpUnchange(i)).1 == Refusal(a, OpUnchange(i))
  {
    hide Guess, Locate, Cp437ToUtf8, HasBit, TakenByOther;
    if Original(a, i).Some? {
      Located(a, i, DisplayName(Original(a, i).value, DEFAULT));
    }
  }

  lemma CommentRefusal(a: Arch, i: nat, text: seq<byte>)
    requires Consistent(a)
    ensures Call(a, OpFileComment(i, text)).1 == Refusal(a, OpFileComment(i, text))
  {
    hide Guess;
    if i < |a.entries| {
      assert EntryOk(a, i);
    }
  }

  lemma FlagRefusal(a: Arch, flag: bv32, on: bool)
    requires Consistent(a)
    ensures Call(a, OpArchiveFlag(flag, on)).1 == Refusal(a, OpArchiveFlag(flag, on))
  {
    hide Guess, WithFlag;
  }
}
