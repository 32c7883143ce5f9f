/** Bytes, C strings and the little-endian integers of the ZIP format. */
module Bytes {

  type byte = b: int | 0 <= b < 0x100
  type u16 = v: int | 0 <= v < 0x1_0000
  type u32 = v: int | 0 <= v < 0x1_0000_0000

  /** The characters of a NUL-terminated C string, without the terminator. */
  type CString = s: seq<byte> | 0 !in s witness []

  datatype Option<+T> = None | Some(value: T)

  datatype Result<+T, +E> = Ok(value: T) | Err(error: E)

  /** What a cast to `unsigned short` keeps of a value. */
  function Low16(v: int): (r: u16)
    ensures 0 <= v < 0x1_0000 ==> r == v
  {
    v % 0x1_0000
  }

  /** What a cast to `unsigned int` keeps of a value. */
  function Low32(v: int): (r: u32)
    ensures 0 <= v < 0x1_0000_0000 ==> r == v
  {
    v % 0x1_0000_0000
  }

  /** The two bytes `_zip_write2` puts. */
  function Le16(v: u16): (s: seq<byte>)
    ensures |s| == 2
  {
    [v % 0x100, v / 0x100]
  }

  /** The four bytes `_zip_write4` puts. */
  function Le32(v: u32): (s: seq<byte>)
    ensures |s| == 4
  {
    [v % 0x100, v / 0x100 % 0x100, v / 0x1_0000 % 0x100, v / 0x100_0000]
  }

  /** `_zip_read2` at offset o. */
  function At16(s: seq<byte>, o: nat): u16
    requires o + 2 <= |s|
  {
    var lo: int, hi: int := s[o], s[o + 1];
    lo + hi * 0x100
  }

  /** `_zip_read4` at offset o. */
  function At32(s: seq<byte>, o: nat): u32
    requires o + 4 <= |s|
  {
    var a: int, b: int, c: int, d: int := s[o], s[o + 1], s[o + 2], s[o + 3];
    ((d * 0x100 + c) * 0x100 + b) * 0x100 + a
  }

  /** Reading undoes writing, whatever follows. */
  lemma ReadLe16(s: seq<byte>, o: nat, v: u16, rest: seq<byte>)
    requires o <= |s| && s[o..] == Le16(v) + rest
    ensures o + 2 <= |s| && At16(s, o) == v && s[o + 2..] == rest
  {
    var t := s[o..];
    assert s[o] == t[0] && s[o + 1] == t[1] && s[o + 2..] == t[2..];
  }

  lemma ReadLe32(s: seq<byte>, o: nat, v: u32, rest: seq<byte>)
    requires o <= |s| && s[o..] == Le32(v) + rest
    ensures o + 4 <= |s| && At32(s, o) == v && s[o + 4..] == rest
  {
    var t := s[o..];
    assert s[o] == t[0] && s[o + 1] == t[1] && s[o + 2] == t[2] && s[o + 3] == t[3] && s[o + 4..] == t[4..];
    Digits(v);
  }

  lemma Digits(v: u32)
    ensures v == ((v / 0x100_0000 * 0x100 + v / 0x1_0000 % 0x100) * 0x100 + v / 0x100 % 0x100) * 0x100 + v % 0x100
  {
    assert v / 0x1_0000 / 0x100 == v / 0x100_0000;
    assert v / 0x100 / 0x100 == v / 0x1_0000;
  }

  /** The two general purpose flags the archive code tests, by weight. */
  const DATA_DESCRIPTOR := 0x0008
  const ENCODING_UTF_8 := 0x0800

  /** One bit of a flag word. */
  predicate HasBit(flags: u16, weight: nat)
    requires weight == DATA_DESCRIPTOR || weight == ENCODING_UTF_8
  {
    flags / weight % 2 == 1
  }

  function ClearBit(flags: u16, weight: nat): (r: u16)
    requires weight == DATA_DESCRIPTOR || weight == ENCODING_UTF_8
  {
    if HasBit(flags, weight) then flags - weight else flags
  }

  function SetBit(flags: u16, weight: nat): (r: u16)
    requires weight == DATA_DESCRIPTOR || weight == ENCODING_UTF_8
  {
    if HasBit(flags, weight) then flags
    else if weight == DATA_DESCRIPTOR then (assert flags / 8 <= 8190; flags + 8)
    else (assert flags / 2048 <= 30; flags + 2048)
  }
}
