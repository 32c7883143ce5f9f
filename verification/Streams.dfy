/** Reading through layers: a window over a checksum over a base source. What comes out does not depend on how the
    reads are cut. */
module Streams {
  import opened Bytes
  import opened Dirents

  const ZIP_INT64_MAX := 0x7FFF_FFFF_FFFF_FFFF

  type u64 = v: int | 0 <= v < 0x1_0000_0000_0000_0000

  /** What a cast from `zip_uint64_t` to `zip_int64_t` keeps. */
  function AsInt64(v: u64): int {
    if v <= ZIP_INT64_MAX then v else v - 0x1_0000_0000_0000_0000
  }

  function MinOf(a: nat, b: nat): nat {
    if a < b then a else b
  }

  /** A read of up to n bytes from `ahead` may be short, but is empty only at the end. */
  predicate ShortRead(ahead: seq<byte>, n: nat, got: seq<byte>) {
    got <= ahead && |got| <= n && (got == [] ==> n == 0 || ahead == [])
  }

  /** What `zip_source_stat` knows of a source's data. */
  datatype DataStat = DataStat(crc: Option<u32>, size: Option<nat>)

  // ----- base sources

  /** `read_data`: a buffer in memory. */
  class Buffer {
    const data: seq<byte>
    var cursor: nat

    constructor (data: seq<byte>)
      ensures this.data == data && cursor == 0
    {
      this.data, cursor := data, 0;
    }

    method Open()
      modifies this
      ensures cursor == 0
    {
      cursor := 0;
    }

    method Read(len: nat) returns (bytes: seq<byte>)
      requires cursor <= |data|
      modifies this
      ensures cursor == old(cursor) + |bytes| <= |data| && |bytes| == MinOf(len, |data| - old(cursor))
      ensures ShortRead(data[old(cursor)..], len, bytes)
    {
      var n := |data| - cursor;
      if n > len {
        n := len;
      }
      bytes := data[cursor..cursor + n];
      cursor := cursor + n;
    }
  }

  /** Any base source: the n-th read brings at most `grain(n)` bytes (but at least one), or fails. */
  class Base {
    const data: seq<byte>
    const grain: nat -> nat
    const fails: nat -> bool
    const stat: Option<DataStat>
    var cursor: nat
    var turn: nat

    constructor (data: seq<byte>, grain: nat -> nat, fails: nat -> bool, stat: Option<DataStat>)
      ensures this.data == data && this.grain == grain && this.fails == fails && this.stat == stat && cursor == 0
    {
      this.data, this.grain, this.fails, this.stat := data, grain, fails, stat;
      cursor, turn := 0, 0;
    }

    /** What a read of n bytes brings now, if it does not fail. */
    ghost function Next(n: nat): (next: seq<byte>)
      requires cursor <= |data|
      reads this
      ensures next <= data[cursor..] && |next| == MinOf(n, MinOf(Most(turn), |data| - cursor))
    {
      data[cursor..][..MinOf(n, MinOf(Most(turn), |data| - cursor))]
    }

    function Most(t: nat): nat {
      if grain(t) == 0 then 1 else grain(t)
    }

    method Read(len: nat) returns (r: Result<seq<byte>, ZipError>)
      requires cursor <= |data|
      modifies this
      ensures turn == old(turn) + 1
      ensures r.Ok? ==> r.value == old(Next(len))
      ensures cursor == old(cursor) + (if r.Ok? then |r.value| else 0) <= |data|
      ensures len > ZIP_INT64_MAX ==> r == Err(ErInval)
      ensures len <= ZIP_INT64_MAX && fails(old(turn)) ==> r == Err(ErSource)
      ensures len <= ZIP_INT64_MAX && !fails(old(turn)) ==> r.Ok?
    {
      var t := turn;
      turn := t + 1;
      if len > ZIP_INT64_MAX {
        return Err(ErInval);
      }
      if fails(t) {
        return Err(ErSource);
      }
      var n := MinOf(len, MinOf(Most(t), |data| - cursor));
      var got := data[cursor..cursor + n];
      assert got == data[cursor..][..n];
      cursor := cursor + n;
      r := Ok(got);
    }
  }

  // ----- checksum

  /** zlib's running checksum, one byte at a time. */
  function Crc(step: (u32, byte) -> u32, start: u32, bytes: seq<byte>): u32
    decreases |bytes|
  {
    if bytes == [] then start else Crc(step, step(start, bytes[0]), bytes[1..])
  }

  /** Feeding a checksum piecewise is feeding it at once. */
  lemma {:induction false} CrcJoins(step: (u32, byte) -> u32, start: u32, a: seq<byte>, b: seq<byte>)
    ensures Crc(step, start, a + b) == Crc(step, Crc(step, start, a), b)
    decreases |a|
  {
    if a == [] {
      assert a + b == b;
    } else {
      assert (a + b)[1..] == a[1..] + b;
      CrcJoins(step, step(start, a[0]), a[1..], b);
    }
  }

  /** Whether size and checksum of `data` contradict what was announced; which error that gives. */
  function Verdict(step: (u32, byte) -> u32, stat: Option<DataStat>, data: seq<byte>): Option<ZipError> {
    if stat.None? then Some(ErSource)
    else if stat.value.crc.Some? && stat.value.crc.value != Crc(step, 0, data) then Some(ErCrc)
    else if stat.value.size.Some? && stat.value.size.value != |data| then Some(ErIncons)
    else None
  }

  /** Three bytes under a step that doubles and adds: what is announced of them right or wrong, checksum before size. */
  lemma KnownVerdicts(step: (u32, byte) -> u32)
    requires forall c: u32, b: byte :: step(c, b) == Low32(2 * c + b)
    ensures Crc(step, 0, [1, 2, 3]) == 11 && Crc(step, 5, [1]) == 11
    ensures Verdict(step, Some(DataStat(Some(11), Some(3))), [1, 2, 3]) == None
    ensures Verdict(step, Some(DataStat(None, None)), [1, 2, 3]) == None
    ensures Verdict(step, Some(DataStat(Some(12), Some(4))), [1, 2, 3]) == Some(ErCrc)
    ensures Verdict(step, Some(DataStat(None, Some(4))), [1, 2, 3]) == Some(ErIncons)
    ensures Verdict(step, None, [1, 2, 3]) == Some(ErSource)
  {
    assert [1, 2, 3][1..] == [2, 3] && [2, 3][1..] == [3] && [3][1..] == [];
    assert step(0, 1) == 1 && step(1, 2) == 4 && step(4, 3) == 11 && step(5, 1) == 11;
    assert [1][1..] == [];
  }

  /** `crc_read` */
  class Checksum {
    const src: Base
    const validate: bool
    const step: (u32, byte) -> u32
    var eof: bool
    var size: nat
    var crc: u32

    constructor (src: Base, validate: bool, step: (u32, byte) -> u32)
      ensures this.src == src && this.validate == validate && this.step == step
    {
      this.src, this.validate, this.step := src, validate, step;
    }

    /** Size and checksum are those of all bytes passed so far; the end is the end of the data. */
    predicate Valid()
      reads this, src
    {
      && src.cursor <= |src.data|
      && size == src.cursor
      && crc == Crc(step, 0, src.data[..src.cursor])
      && (eof ==> src.cursor == |src.data|)
    }

    method Open()
      requires src.cursor == 0
      modifies this
      ensures Valid() && !eof && crc == 0 && size == 0
    {
      eof, crc, size := false, 0, 0;
    }

    /** Passes bytes on; the read that meets the end checks them if asked to, and fails exactly when they are not as
        announced. Reads after the end give nothing. */
    method Read(len: nat) returns (r: Result<seq<byte>, ZipError>)
      requires Valid()
      modifies this, src
      ensures Valid()
      ensures r.Ok? ==> ShortRead(src.data[old(src.cursor)..], len, r.value)
      ensures r.Ok? && !old(eof) ==> r.value == old(src.Next(len))
      ensures len > ZIP_INT64_MAX ==> r == Err(ErInval)
      ensures 0 < len <= ZIP_INT64_MAX && !old(eof) && src.fails(old(src.turn)) ==> r == Err(ErSource)
      ensures src.cursor == old(src.cursor) + (if r.Ok? then |r.value| else 0)
      ensures old(eof) ==> eof && (len <= ZIP_INT64_MAX ==> r == Ok([]))
      ensures eof && !old(eof) ==>
        if validate && Verdict(step, src.stat, src.data).Some? then r == Err(Verdict(step, src.stat, src.data).value)
        else r == Ok([])
      ensures r == Ok([]) && len > 0 ==> eof
      ensures r.Err? && len <= ZIP_INT64_MAX && !src.fails(old(src.turn)) ==> eof && !old(eof)
    {
      if len > ZIP_INT64_MAX {
        return Err(ErInval);
      }
      if eof || len == 0 {
        return Ok([]);
      }
      ghost var before := src.data[..src.cursor];
      r := src.Read(len);
      if r.Err? {
        return;
      }
      var n := |r.value|;
      if n == 0 {
        eof := true;
        assert src.data[..src.cursor] == src.data;
        if validate {
          if src.stat == None {
            return Err(ErSource);
          }
          var st := src.stat.value;
          if st.crc.Some? && st.crc.value != crc {
            return Err(ErCrc);
          }
          if st.size.Some? && st.size.value != size {
            return Err(ErIncons);
          }
        }
      } else {
        size := size + n;
        CrcJoins(step, 0, before, r.value);
        assert src.data[..src.cursor] == before + r.value;
        crc := Crc(step, crc, r.value);
      }
    }

    /** The stat callback: after the end, size and checksum of the whole data. */
    method Stat(below: DataStat) returns (st: DataStat)
      requires Valid()
      ensures st == if eof then DataStat(Some(Crc(step, 0, src.data)), Some(|src.data|)) else below
    {
      st := below;
      if eof {
        assert src.data[..src.cursor] == src.data;
        st := DataStat(Some(crc), Some(size));
      }
    }
  }

  // ----- window

  const SKIP_CHUNK := 8192

  /** `window_read` */
  class Window {
    const src: Checksum
    const skip: u64
    const len: u64
    var left: nat

    constructor (src: Checksum, start: u64, len: u64)
      ensures this.src == src && skip == start && this.len == len && left == len
      ensures Skipped() == if start < 0x8000_0000_0000_0000 then start else 0
    {
      this.src, skip, this.len, left := src, start, len, len;
    }

    ghost function Repr(): set<object> {
      {this, src, src.src}
    }

    ghost function Data(): seq<byte> {
      src.src.data
    }

    /** How much is skipped: a start beyond the signed range skips nothing. */
    function Skipped(): nat {
      if AsInt64(skip) < 0 then 0 else AsInt64(skip)
    }

    /** Open and standing `len - left` bytes into the window. */
    ghost predicate Valid()
      reads this, src, src.src
    {
      src.Valid() && left <= len && src.src.cursor == Skipped() + (len - left)
    }

    /** The part of the data below that the window shows. */
    ghost function Shown(): seq<byte> {
      var tail := if Skipped() <= |Data()| then Data()[Skipped()..] else [];
      if len <= |tail| then tail[..len] else tail
    }

    /** The bytes delivered so far. */
    ghost function Delivered(): (d: seq<byte>)
      requires Valid()
      reads this, src, src.src
      ensures |d| == len - left && d <= Shown()
    {
      var d := Data()[Skipped()..src.src.cursor];
      assert d == Data()[Skipped()..][..len - left];
      d
    }

    /** OPEN, after the layer below has been opened: reads and drops the bytes before the window. */
    method Open() returns (error: Option<ZipError>)
      requires src.Valid() && src.src.cursor == 0 && left == len
      modifies src, src.src
      ensures src.Valid()
      ensures error == None ==> Valid() && Delivered() == []
      ensures |Data()| < Skipped() ==> error.Some?
      ensures !old(src.eof) && (forall t :: !src.src.fails(t)) ==>
        error ==
        if |Data()| >= Skipped() then None
        else if src.validate && Verdict(src.step, src.src.stat, Data()).Some? then
          Verdict(src.step, src.src.stat, Data())
        else Some(ErEof)
    {
      hide Verdict, Crc;
      var target := AsInt64(skip);
      var n := 0;
      while n < target
        invariant src.Valid() && src.src.cursor == n && (!old(src.eof) ==> !src.eof)
        invariant target < 0 ==> n == 0
        invariant target >= 0 ==> n <= target
        decreases target - n
      {
        var i := if skip - n > SKIP_CHUNK then SKIP_CHUNK else target - n;
        var r := src.Read(i);
        if r.Err? {
          return Some(r.error);
        }
        if |r.value| == 0 {
          return Some(ErEof);
        }
        n := n + |r.value|;
      }
      error := None;
    }

    /** READ: the next bytes of the window, as many as are asked for, are left of the window, and as the layer below
        brings at once. Where the data ends before the window does, the answer is what the checksum says of the data,
        and the end of file after that. */
    method Read(n: nat) returns (r: Result<seq<byte>, ZipError>)
      requires Valid()
      modifies this`left, src, src.src
      ensures Valid()
      ensures match r
              case Ok(bytes) => Delivered() == old(Delivered()) + bytes
              case Err(_) => Delivered() == old(Delivered())
      ensures src.eof == (old(src.eof) || (src.eof && r.Err?))
      ensures r == old(
        if n > ZIP_INT64_MAX then Err(ErInval)
        else if n == 0 || left == 0 then Ok([])
        else if src.eof then Err(ErEof)
        else if src.src.fails(src.src.turn) then Err(ErSource)
        else if src.src.cursor < |Data()| then Ok(src.src.Next(MinOf(n, left)))
        else Err(AtEnd()))
    {
      hide Crc, Verdict;
      if n > ZIP_INT64_MAX {
        return Err(ErInval);
      }
      var want := if n > left then left else n;
      if want <= 0 {
        return Ok([]);
      }
      r := src.Read(want);
      if r.Err? {
        return;
      }
      left := left - |r.value|;
      if |r.value| == 0 {
        if left > 0 {
          return Err(ErEof);
        }
      }
    }

    /** The first answer behind the end of the data. */
    function AtEnd(): ZipError {
      var verdict := Verdict(src.step, src.src.stat, src.src.data);
      if src.validate && verdict.Some? then verdict.value else ErEof
    }

    /** A whole session of reads of any sizes, up to the first error. What is delivered is always a prefix of what the
        window shows. From a source that never fails, as many requests for something as the window shows bytes bring
        all of it, and an error comes if and only if the window reaches beyond the data and one more is made. */
    method ReadAll(sizes: seq<nat>) returns (out: seq<byte>, error: Option<ZipError>, ended: bool)
      requires Valid() && Delivered() == []
      modifies this`left, src, src.src
      ensures Valid() && out == Delivered() <= Shown()
      ensures ended ==> out == Shown() && |out| == len
      ensures (forall t :: !src.src.fails(t)) && (forall i | 0 <= i < |sizes| :: sizes[i] <= ZIP_INT64_MAX) ==>
        && (Asking(sizes) >= |Shown()| ==> out == Shown())
        && (error.Some? ==> out == Shown())
        && (|Shown()| == len ==> error == None)
        && (|Shown()| < len && Asking(sizes) > |Shown()| && !old(src.eof) ==> error == Some(AtEnd()))
    {
      hide Crc, Verdict, Asking, AtEnd;
      AskingNone();
      out, error, ended := [], None, false;
      ghost var reliable :=
        (forall t :: !src.src.fails(t)) && forall i | 0 <= i < |sizes| :: sizes[i] <= ZIP_INT64_MAX;
      for i := 0 to |sizes|
        invariant Valid() && out == Delivered()
        invariant ended ==> left == 0
        invariant reliable ==> |out| == len || |out| >= Asking(sizes[..i])
        invariant !old(src.eof) ==> !src.eof
      {
        assert sizes[..i + 1] == sizes[..i] + [sizes[i]];
        AskingNext(sizes[..i], sizes[i]);
        var r := Read(sizes[i]);
        if r.Err? {
          return out, Some(r.error), ended;
        }
        out := out + r.value;
        if r.value == [] && sizes[i] > 0 {
          ended := true;
        }
      }
      assert sizes[..|sizes|] == sizes;
    }
  }

  /** How many of the requests ask for something. */
  function Asking(sizes: seq<nat>): nat {
    if sizes == [] then 0 else Asking(sizes[..|sizes| - 1]) + if sizes[|sizes| - 1] > 0 then 1 else 0
  }

  lemma AskingNone()
    ensures Asking([]) == 0
  {
  }

  lemma AskingNext(sizes: seq<nat>, n: nat)
    ensures Asking(sizes + [n]) == Asking(sizes) + if n > 0 then 1 else 0
  {
    assert (sizes + [n])[..|sizes|] == sizes;
  }
}
