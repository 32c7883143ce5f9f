/** Looking for the central directory when an archive is opened. */
module FindCdir {
  import opened Bytes
  import opened ByteFiles
  import opened Dirents
  import opened Cdirs

  const CDBUFSIZE := 65536 + EOCDLEN

  /** Whether the four bytes of `magic` stand at p. */
  predicate MagicAt(s: seq<byte>, p: nat, magic: seq<byte>) {
    p + |magic| <= |s| && s[p..p + |magic|] == magic
  }

  lemma MagicParts(s: seq<byte>, p: nat, magic: seq<byte>)
    requires magic != [] && p + |magic| <= |s|
    ensures MagicAt(s, p, magic) <==> s[p] == magic[0] && s[p + 1..p + |magic|] == magic[1..]
  {
    var t := s[p..p + |magic|];
    assert t == [s[p]] + s[p + 1..p + |magic|] && t[1..] == s[p + 1..p + |magic|];
    assert magic == [magic[0]] + magic[1..];
  }

  /** `_zip_memmem`: the first place in s[from..from + n] where `little` stands. */
  method MemMem(s: seq<byte>, from: nat, n: int, little: seq<byte>) returns (r: Option<nat>)
    requires little != [] && from + n <= |s|
    ensures r.Some? ==> from <= r.value && r.value + |little| <= from + n && MagicAt(s, r.value, little)
    ensures forall p: nat | from <= p && p + |little| <= from + n && MagicAt(s, p, little) :: r.Some? && r.value <= p
  {
    if n < |little| {
      return None;
    }
    var p := from;
    while p + |little| <= from + n
      invariant from <= p
      invariant forall q | from <= q < p :: !MagicAt(s, q, little)
    {
      MagicParts(s, p, little);
      // memchr for the first byte, memcmp for the others
      if s[p] == little[0] && s[p + 1..p + |little|] == little[1..] {
        return Some(p);
      }
      p := p + 1;
    }
    r := None;
  }

  // ----- the consistency check

  /** `_zip_headercomp` of a central and a local header */
  predicate HeadersAgree(central: Dirent, local: Dirent) {
    && central.versionNeeded == local.versionNeeded && central.compMethod == local.compMethod
    && central.lastMod == local.lastMod && central.filename == local.filename
    && if HasBit(local.bitflags, DATA_DESCRIPTOR)
       then local.crc == 0 && local.compSize == 0 && local.uncompSize == 0
       else local.crc == central.crc && local.compSize == central.compSize && local.uncompSize == central.uncompSize
  }

  /** What a cast from `unsigned int` to `int` keeps. */
  function AsInt(v: u32): int {
    if v < 0x8000_0000 then v else v - 0x1_0000_0000
  }

  function Min(a: u32, b: u32): u32 { if a < b then a else b }
  function Max(a: u32, b: u32): u32 { if a > b then a else b }

  /** Where entry d says it ends, at the least. */
  function EndOf(d: Dirent): u32 {
    Low32(d.offset + d.compSize + |d.filename| + LENTRYSIZE)
  }

  /** Whether entry d is plausible, given the lowest offset and highest end up to it. */
  predicate EntryPlausible(data: seq<byte>, cd: Cdir, d: Dirent, min: u32, max: u32) {
    && min <= cd.offset && max <= cd.offset
    && match ParseDirent(Ahead(data, d.offset), None, true)
       case Err(_) => false
       case Ok((local, _)) => HeadersAgree(d, local)
  }

  function CheckFrom(data: seq<byte>, cd: Cdir, i: nat, min: u32, max: u32): int
    decreases |cd.entries| - i
  {
    if i >= |cd.entries| then AsInt(Low32(max - min))
    else
      var d := cd.entries[i];
      var lo, hi := Min(d.offset, min), Max(EndOf(d), max);
      if EntryPlausible(data, cd, d, lo, hi) then CheckFrom(data, cd, i + 1, lo, hi) else -1
  }

  /** What `_zip_checkcons` returns: -1, or how much of the file the entries span. */
  function CheckCons(data: seq<byte>, cd: Cdir): int {
    var first := if cd.entries == [] then 0 else cd.entries[0].offset;
    CheckFrom(data, cd, 0, first, first)
  }

  /** `_zip_checkcons` */
  method CheckConsistency(fp: ByteFile, cd: Cdir) returns (r: int)
    modifies fp`pos
    ensures r == CheckCons(fp.data, cd)
  {
    var min: u32, max: u32 := 0, 0;
    if |cd.entries| > 0 {
      min, max := cd.entries[0].offset, cd.entries[0].offset;
    }
    var i := 0;
    while i < |cd.entries|
      invariant 0 <= i <= |cd.entries|
      invariant CheckFrom(fp.data, cd, i, min, max) == CheckCons(fp.data, cd)
    {
      hide ParseDirent, HeadersAgree;
      var d := cd.entries[i];
      min := Min(d.offset, min);
      if min > cd.offset {
        return -1;
      }
      max := Max(EndOf(d), max);
      if max > cd.offset {
        return -1;
      }
      fp.Seek(d.offset);
      var temp, _, _ := ReadDirent(fp, None, 0, None, true);
      if temp.Err? || !HeadersAgree(d, temp.value) {
        return -1;
      }
      i := i + 1;
    }
    r := AsInt(Low32(max - min));
  }

  // ----- the search

  /** The best directory so far, with its rating; no directory is rated -1. */
  datatype Best = Best(cdir: Option<Cdir>, rating: int)

  const NOTHING := Best(None, -1)

  /** What one more end record at byte e does to the choice. */
  function Consider(data: seq<byte>, best: Best, e: nat, checkCons: bool): Best {
    match ReadCdirAt(data, e, checkCons)
    case Err(_) => best
    case Ok(cd) =>
      if best.cdir.Some? then
        var rating := if best.rating <= 0 then CheckCons(data, best.cdir.value) else best.rating;
        if rating < CheckCons(data, cd) then Best(Some(cd), CheckCons(data, cd)) else Best(best.cdir, rating)
      else Best(Some(cd), if checkCons then CheckCons(data, cd) else 0)
  }

  /** The choice after all end records from byte e on. */
  function Search(data: seq<byte>, best: Best, e: nat, checkCons: bool): Best
    decreases |data| - e
  {
    if e + EOCDLEN > |data| then best
    else
      var next := if MagicAt(data, e, EOCD_MAGIC) then Consider(data, best, e, checkCons) else best;
      Search(data, next, e + 1, checkCons)
  }

  function WindowStart(data: seq<byte>): nat {
    if |data| < CDBUFSIZE then 0 else |data| - CDBUFSIZE
  }

  function Find(data: seq<byte>, checkCons: bool): Option<Cdir> {
    var best := Search(data, NOTHING, WindowStart(data), checkCons);
    if best.rating < 0 then None else best.cdir
  }

  lemma {:induction false} SearchSkips(data: seq<byte>, best: Best, e: nat, f: nat, checkCons: bool)
    requires e <= f
    requires forall p | e <= p < f && p + EOCDLEN <= |data| :: !MagicAt(data, p, EOCD_MAGIC)
    ensures Search(data, best, e, checkCons) == Search(data, best, f, checkCons)
    decreases f - e
  {
    if e < f && e + EOCDLEN <= |data| {
      SearchSkips(data, best, e + 1, f, checkCons);
    }
  }

  lemma SearchTakes(data: seq<byte>, best: Best, e: nat, checkCons: bool)
    requires e + EOCDLEN <= |data| && MagicAt(data, e, EOCD_MAGIC)
    ensures Search(data, best, e, checkCons) == Search(data, Consider(data, best, e, checkCons), e + 1, checkCons)
  {
    hide Consider;
  }

  lemma SearchEnds(data: seq<byte>, best: Best, checkCons: bool)
    ensures Search(data, best, |data|, checkCons) == best
  {
  }

  /** `_zip_find_central_dir` */
  method FindCentralDir(fp: ByteFile, checkCons: bool) returns (r: Option<Cdir>)
    requires forall e: nat | WindowStart(fp.data) <= e && e + EOCDLEN <= |fp.data| && MagicAt(fp.data, e, EOCD_MAGIC) ::
      KeepsInside(fp.data[e..], WindowStart(fp.data))
    modifies fp`pos
    ensures r == Find(fp.data, checkCons)
  {
    hide Search, Consider, MagicAt, KeepsInside;
    ghost var data := fp.data;
    var bufOffset := WindowStart(fp.data);
    fp.Seek(bufOffset);
    var buf := fp.Read(CDBUFSIZE);
    assert buf == data[bufOffset..];
    var best := -1;
    var cdir: Option<Cdir> := None;
    var match_ := 0;
    while true
      invariant 0 <= match_ <= |buf| && fp.data == data
      invariant Search(data, NOTHING, bufOffset, checkCons)
        == Search(data, Best(cdir, best), bufOffset + match_, checkCons)
      decreases |buf| - match_
    {
      var at := MemMem(buf, match_, |buf| - match_ - 18, EOCD_MAGIC);
      SkipTo(data, buf, bufOffset, match_, at);
      if at == None {
        SearchSkips(data, Best(cdir, best), bufOffset + match_, |data|, checkCons);
        SearchEnds(data, Best(cdir, best), checkCons);
        break;
      }
      SearchSkips(data, Best(cdir, best), bufOffset + match_, bufOffset + at.value, checkCons);
      SearchTakes(data, Best(cdir, best), bufOffset + at.value, checkCons);
      assert buf[at.value..] == data[bufOffset + at.value..];
      match_ := at.value + 1;
      cdir, best := Weigh(fp, bufOffset, buf, at.value, checkCons, cdir, best);
    }
    r := if best < 0 then None else cdir;
  }

  /** Between two matches in the buffer there is none in the file. */
  lemma SkipTo(data: seq<byte>, buf: seq<byte>, bufOffset: nat, from: nat, at: Option<nat>)
    requires bufOffset <= |data| && buf == data[bufOffset..] && from <= |buf|
    requires at.Some? ==> from <= at.value && at.value + EOCDLEN <= |buf| && MagicAt(buf, at.value, EOCD_MAGIC)
    requires forall p: nat | from <= p && p + 4 <= |buf| - 18 && MagicAt(buf, p, EOCD_MAGIC) ::
      at.Some? && at.value <= p
    ensures at.Some? ==> MagicAt(data, bufOffset + at.value, EOCD_MAGIC)
    ensures forall p |
      bufOffset + from <= p < (if at.Some? then bufOffset + at.value else |data|) && p + EOCDLEN <= |data| ::
      !MagicAt(data, p, EOCD_MAGIC)
  {
    forall p: nat | bufOffset <= p && p + 4 <= |data|
      ensures MagicAt(data, p, EOCD_MAGIC) <==> MagicAt(buf, p - bufOffset, EOCD_MAGIC)
    {
      assert buf[p - bufOffset..p - bufOffset + 4] == data[p..p + 4];
    }
  }

  /** The body of the search loop: one end record against the best directory so far. */
  method Weigh(fp: ByteFile, bufOffset: nat, buf: seq<byte>, eocd: nat, checkCons: bool, cdir: Option<Cdir>, best: int)
    returns (newCdir: Option<Cdir>, newBest: int)
    requires bufOffset <= |fp.data| && buf == fp.data[bufOffset..] && eocd <= |buf|
    requires KeepsInside(buf[eocd..], bufOffset)
    modifies fp`pos
    ensures Best(newCdir, newBest) == Consider(fp.data, Best(cdir, best), bufOffset + eocd, checkCons)
  {
    hide CheckCons, ReadCdirAt;
    newCdir, newBest := cdir, best;
    var dir, error := ReadCdir(fp, bufOffset, buf, eocd, checkCons);
    if dir == null {
      return;
    }
    var candidate := Cdir(dir.entry, dir.size, dir.offset, dir.comment);
    if cdir.Some? {
      if best <= 0 {
        newBest := CheckConsistency(fp, cdir.value);
      }
      var a := CheckConsistency(fp, candidate);
      if newBest < a {
        newCdir, newBest := Some(candidate), a;
      }
    } else {
      newCdir := Some(candidate);
      if checkCons {
        newBest := CheckConsistency(fp, candidate);
      } else {
        newBest := 0;
      }
    }
  }

  // ----- what the check and the search mean

  /** The lowest offset of the entries; 0 for none. */
  function Lowest(entries: seq<Dirent>): u32 {
    if |entries| == 0 then 0
    else if |entries| == 1 then entries[0].offset
    else Min(entries[|entries| - 1].offset, Lowest(entries[..|entries| - 1]))
  }

  /** The highest end of the entries, or the offset of the first if that is higher; 0 for none. */
  function Highest(entries: seq<Dirent>): (h: u32)
    ensures h >= Lowest(entries)
  {
    if |entries| == 0 then 0
    else if |entries| == 1 then Max(EndOf(entries[0]), entries[0].offset)
    else Max(EndOf(entries[|entries| - 1]), Highest(entries[..|entries| - 1]))
  }

  /** An entry that ends before the directory and agrees with its local header. */
  predicate Passes(data: seq<byte>, cd: Cdir, d: Dirent) {
    && EndOf(d) <= cd.offset
    && match ParseDirent(Ahead(data, d.offset), None, true)
       case Err(_) => false
       case Ok((local, _)) => HeadersAgree(d, local)
  }

  /** What that says of the bytes s at the entry's offset: a whole local header with the same version, method, time,
      date and name, and with the same checksum and sizes, or with none where they follow the data. */
  lemma PassesOnBytes(data: seq<byte>, cd: Cdir, d: Dirent)
    ensures var s := Ahead(data, d.offset);
      Passes(data, cd, d) <==>
      && (d.offset + d.compSize + |d.filename| + 30) % 0x1_0000_0000 <= cd.offset
      && |s| >= 30 && s[0] == 0x50 && s[1] == 0x4B && s[2] == 0x03 && s[3] == 0x04
      && |s| >= 30 + At16(s, 26) + At16(s, 28)
      && At16(s, 4) == d.versionNeeded && At16(s, 8) == d.compMethod
      && At16(s, 10) == d.lastMod.time && At16(s, 12) == d.lastMod.date
      && At16(s, 26) == |d.filename|
      && (forall i | 0 <= i < |d.filename| :: d.filename[i] == if s[30 + i] == 0 then 0x20 else s[30 + i])
      && if At16(s, 6) / 8 % 2 == 1 then At32(s, 14) == At32(s, 18) == At32(s, 22) == 0
         else At32(s, 14) == d.crc && At32(s, 18) == d.compSize && At32(s, 22) == d.uncompSize
  {
    hide At16, At32;
    var s := Ahead(data, d.offset);
    if |s| >= 30 {
      assert s[..4] == [0x50, 0x4B, 0x03, 0x04] <==> s[0] == 0x50 && s[1] == 0x4B && s[2] == 0x03 && s[3] == 0x04 by {
        assert s[..4] == [s[0], s[1], s[2], s[3]];
      }
      var n: nat := At16(s, 26);
      if |s| >= 30 + n {
        SpacedMeans(s[30..], n, d.filename);
      }
    }
  }

  lemma SpacedMeans(t: seq<byte>, n: nat, name: CString)
    requires n <= |t|
    ensures Spaced(t[..n]) == name
      <==> n == |name| && forall i | 0 <= i < n :: name[i] == if t[i] == 0 then 0x20 else t[i]
  {
    assert forall i | 0 <= i < n :: t[..n][i] == t[i];
  }

  /** Each entry passes, and the first one starts before the directory. */
  predicate Plausible(data: seq<byte>, cd: Cdir) {
    && (cd.entries == [] || cd.entries[0].offset <= cd.offset)
    && forall i | 0 <= i < |cd.entries| :: Passes(data, cd, cd.entries[i])
  }

  /** The check tells plausible directories from others: it gives the span of the entries for those, which is negative
      from 2 GB on, and -1 for the others. */
  lemma CheckConsMeans(data: seq<byte>, cd: Cdir)
    ensures var span := Highest(cd.entries) - Lowest(cd.entries);
      CheckCons(data, cd)
      == if !Plausible(data, cd) then -1 else if span < 0x8000_0000 then span else span - 0x1_0000_0000
  {
    hide CheckFrom, Passes, EndOf, Lowest, Highest;
    var entries := cd.entries;
    if entries == [] {
      CheckEnds(data, cd, 0, 0, 0);
      SpanFirst(entries);
    } else {
      var first := entries[0].offset;
      SpanFirst(entries);
      CheckNext(data, cd, 0, first, first);
      if Passes(data, cd, entries[0]) && first <= cd.offset {
        PassesEnd(data, cd, entries[0]);
        CheckRest(data, cd, 1);
      }
    }
  }

  lemma SpanFirst(entries: seq<Dirent>)
    ensures entries == [] ==> Lowest(entries) == 0 && Highest(entries) == 0
    ensures entries != [] ==>
      && Lowest(entries[..1]) == entries[0].offset
      && Highest(entries[..1]) == Max(EndOf(entries[0]), entries[0].offset)
  {
  }

  lemma SpanNext(entries: seq<Dirent>, i: nat)
    requires 0 < i < |entries|
    ensures Lowest(entries[..i + 1]) == Min(entries[i].offset, Lowest(entries[..i]))
    ensures Highest(entries[..i + 1]) == Max(EndOf(entries[i]), Highest(entries[..i]))
  {
    assert entries[..i + 1][..i] == entries[..i];
  }

  lemma PassesEnd(data: seq<byte>, cd: Cdir, d: Dirent)
    requires Passes(data, cd, d)
    ensures EndOf(d) <= cd.offset
  {
  }

  lemma CheckEnds(data: seq<byte>, cd: Cdir, i: nat, min: u32, max: u32)
    requires i >= |cd.entries|
    ensures CheckFrom(data, cd, i, min, max) == AsInt(Low32(max - min))
  {
  }

  /** One round of the check. */
  lemma CheckNext(data: seq<byte>, cd: Cdir, i: nat, min: u32, max: u32)
    requires i < |cd.entries| && min <= max
    ensures var d := cd.entries[i];
      CheckFrom(data, cd, i, min, max) ==
      if Passes(data, cd, d) && max <= cd.offset
      then CheckFrom(data, cd, i + 1, Min(d.offset, min), Max(EndOf(d), max)) else -1
  {
    hide ParseDirent, HeadersAgree, EndOf;
  }

  lemma {:induction false} CheckRest(data: seq<byte>, cd: Cdir, i: nat)
    requires 0 < i <= |cd.entries| && Highest(cd.entries[..i]) <= cd.offset
    ensures CheckFrom(data, cd, i, Lowest(cd.entries[..i]), Highest(cd.entries[..i])) ==
      if forall j | i <= j < |cd.entries| :: Passes(data, cd, cd.entries[j])
      then AsInt(Highest(cd.entries) - Lowest(cd.entries)) else -1
    decreases |cd.entries| - i
  {
    hide CheckFrom, Passes, EndOf, AsInt, Lowest, Highest;
    var lo, hi := Lowest(cd.entries[..i]), Highest(cd.entries[..i]);
    if i == |cd.entries| {
      assert cd.entries[..i] == cd.entries;
      CheckEnds(data, cd, i, lo, hi);
    } else {
      SpanNext(cd.entries, i);
      CheckNext(data, cd, i, lo, hi);
      if Passes(data, cd, cd.entries[i]) {
        PassesEnd(data, cd, cd.entries[i]);
        CheckRest(data, cd, i + 1);
      }
    }
  }

  /** An end record at e with a directory that can be read. */
  predicate Candidate(data: seq<byte>, e: nat, checkCons: bool) {
    e + EOCDLEN <= |data| && MagicAt(data, e, EOCD_MAGIC) && ReadCdirAt(data, e, checkCons).Ok?
  }

  function Rating(data: seq<byte>, e: nat, checkCons: bool): int
    requires Candidate(data, e, checkCons)
  {
    CheckCons(data, ReadCdirAt(data, e, checkCons).value)
  }

  /** Of the candidates from `from` on, w is rated highest, and is the first that is. */
  predicate FirstBest(data: seq<byte>, from: nat, w: nat, checkCons: bool) {
    && from <= w && Candidate(data, w, checkCons)
    && (forall e | from <= e < w && Candidate(data, e, checkCons) ::
      Rating(data, e, checkCons) < Rating(data, w, checkCons))
    && (forall e | w < e < |data| && Candidate(data, e, checkCons) ::
      Rating(data, e, checkCons) <= Rating(data, w, checkCons))
  }

  predicate NoCandidate(data: seq<byte>, from: nat, checkCons: bool) {
    forall e | from <= e < |data| :: !Candidate(data, e, checkCons)
  }

  /** A directory with its own rating is replaced by the first best of those that follow, if that is better. */
  lemma {:induction false} RatedSearch(data: seq<byte>, cd: Cdir, e: nat, checkCons: bool) returns (w: Option<nat>)
    ensures var r := Search(data, Best(Some(cd), CheckCons(data, cd)), e, checkCons);
      match w
      case None =>
        && r == Best(Some(cd), CheckCons(data, cd))
        && forall f | e <= f < |data| && Candidate(data, f, checkCons) :: Rating(data, f, checkCons) <= r.rating
      case Some(f) =>
        && FirstBest(data, e, f, checkCons) && Rating(data, f, checkCons) > CheckCons(data, cd)
        && r == Best(Some(ReadCdirAt(data, f, checkCons).value), Rating(data, f, checkCons))
    decreases |data| - e
  {
    hide CheckCons, ReadCdirAt, MagicAt;
    var best := Best(Some(cd), CheckCons(data, cd));
    if e + EOCDLEN > |data| {
      w := None;
    } else if Candidate(data, e, checkCons) {
      var next := ReadCdirAt(data, e, checkCons).value;
      if CheckCons(data, next) > CheckCons(data, cd) {
        w := RatedSearch(data, next, e + 1, checkCons);
        w := if w.None? then Some(e) else w;
      } else {
        w := RatedSearch(data, cd, e + 1, checkCons);
      }
    } else {
      w := RatedSearch(data, cd, e + 1, checkCons);
    }
  }

  /** A directory that was taken unrated is rated as soon as there is another one. */
  lemma {:induction false} UnratedSearch(data: seq<byte>, cd: Cdir, e: nat, checkCons: bool)
    ensures Search(data, Best(Some(cd), 0), e, checkCons)
      == if NoCandidate(data, e, checkCons) then Best(Some(cd), 0)
         else Search(data, Best(Some(cd), CheckCons(data, cd)), e, checkCons)
    decreases |data| - e
  {
    hide CheckCons, ReadCdirAt, MagicAt;
    if e + EOCDLEN <= |data| && !Candidate(data, e, checkCons) {
      UnratedSearch(data, cd, e + 1, checkCons);
    }
  }

  /** Passing by what is no candidate. */
  lemma {:induction false} SearchPasses(data: seq<byte>, best: Best, e: nat, f: nat, checkCons: bool)
    requires e <= f && forall p | e <= p < f :: !Candidate(data, p, checkCons)
    ensures Search(data, best, e, checkCons) == Search(data, best, f, checkCons)
    decreases f - e
  {
    hide CheckCons, ReadCdirAt, MagicAt;
    if e < f && e + EOCDLEN <= |data| {
      assert !Candidate(data, e, checkCons);
      SearchPasses(data, best, e + 1, f, checkCons);
    }
  }

  /** Without a readable directory none is found. */
  lemma FindsNone(data: seq<byte>, checkCons: bool)
    requires NoCandidate(data, WindowStart(data), checkCons)
    ensures Find(data, checkCons) == None
  {
    hide Candidate;
    SearchPasses(data, NOTHING, WindowStart(data), |data|, checkCons);
  }

  lemma {:induction false} FirstCandidate(data: seq<byte>, from: nat, checkCons: bool) returns (e: nat)
    requires !NoCandidate(data, from, checkCons)
    ensures from <= e && Candidate(data, e, checkCons)
    ensures forall p | from <= p < e :: !Candidate(data, p, checkCons)
    decreases |data| - from
  {
    hide Candidate;
    if Candidate(data, from, checkCons) {
      e := from;
    } else {
      e := FirstCandidate(data, from + 1, checkCons);
    }
  }

  /** With one, the first of the best is found, if its rating is not negative; the rating of a single one does not
      matter unless the consistency check is asked for. */
  lemma FindsBest(data: seq<byte>, checkCons: bool) returns (w: nat)
    requires !NoCandidate(data, WindowStart(data), checkCons)
    ensures FirstBest(data, WindowStart(data), w, checkCons)
    ensures var alone := forall e | WindowStart(data) <= e < |data| && Candidate(data, e, checkCons) :: e == w;
      Find(data, checkCons)
        == if (alone && !checkCons) || Rating(data, w, checkCons) >= 0 then Some(ReadCdirAt(data, w, checkCons).value)
           else None
  {
    hide CheckCons, ReadCdirAt, MagicAt;
    var start := WindowStart(data);
    var e := FirstCandidate(data, start, checkCons);
    SearchPasses(data, NOTHING, start, e, checkCons);
    var cd := ReadCdirAt(data, e, checkCons).value;
    UnratedSearch(data, cd, e + 1, checkCons);
    var later := RatedSearch(data, cd, e + 1, checkCons);
    w := if later.None? then e else later.value;
    assert NoCandidate(data, e + 1, checkCons)
      <==> forall f | start <= f < |data| && Candidate(data, f, checkCons) :: f == e;
  }

  /** When the last 65558 bytes hold one end record only, that is the one that counts. */
  lemma {:induction false} FindOnly(data: seq<byte>, e: nat, checkCons: bool)
    requires WindowStart(data) <= e && e + EOCDLEN <= |data| && MagicAt(data, e, EOCD_MAGIC)
    requires forall p | WindowStart(data) <= p && p + EOCDLEN <= |data| && p != e :: !MagicAt(data, p, EOCD_MAGIC)
    ensures Find(data, checkCons) ==
      match ReadCdirAt(data, e, checkCons)
      case Err(_) => None
      case Ok(cd) => if checkCons && CheckCons(data, cd) < 0 then None else Some(cd)
  {
    hide CheckCons, ReadCdirAt;
    SearchSkips(data, NOTHING, WindowStart(data), e, checkCons);
    var best := Consider(data, NOTHING, e, checkCons);
    SearchSkips(data, best, e + 1, |data|, checkCons);
  }
}
