/** Code page 437 in bytes: the UTF-8 text of every character, and of any name from those of its parts. */
module CodePage {
  import opened Bytes
  import opened Encodings
  import opened Dirents
  import opened ArchiveModel

  /** A name is converted part by part. */
  lemma {:induction false} NamesJoin(s: seq<byte>, t: seq<byte>)
    ensures Cp437ToUtf8(s + t) == Cp437ToUtf8(s) + Cp437ToUtf8(t)
    decreases |s|
  {
    hide Cp437ToUtf8;
    if s == [] {
      NoName();
      assert s + t == t;
    } else {
      NameStep(s);
      NameStep(s + t);
      assert (s + t)[1..] == s[1..] + t;
      NamesJoin(s[1..], t);
    }
  }

  lemma NoName()
    ensures Cp437ToUtf8([]) == []
  {
  }

  lemma NameStep(s: seq<byte>)
    requires s != []
    ensures Cp437ToUtf8(s) == Encode(CodePoint(s[0])) + Cp437ToUtf8(s[1..])
  {
    hide CodePoint;
    assert CodePoints(s)[1..] == CodePoints(s[1..]);
  }

  // ----- the characters in UTF-8

  /** The bytes of one character. */
  function Text(b: byte): seq<byte> {
    if b < 0x10 then Text00(b)
    else if b < 0x20 then Text10(b)
    else if b < 0x7F then [b]
    else if b == 0x7F then [0xE2, 0x8C, 0x82]
    else if b < 0xA0 then Text80(b)
    else if b < 0xC0 then TextA0(b)
    else if b < 0xE0 then TextC0(b)
    else TextE0(b)
  }

  function TextOf(name: seq<byte>): seq<byte> {
    if name == [] then [] else Text(name[0]) + TextOf(name[1..])
  }

  /** Every name becomes the bytes of its characters, one after the other. */
  lemma {:induction false} NameText(name: seq<byte>)
    ensures Cp437ToUtf8(name) == TextOf(name)
  {
    hide Encode, CodePoint, Text, Cp437ToUtf8;
    if name == [] {
      NoName();
    } else {
      NameStep(name);
      CharacterText(name[0]);
      NameText(name[1..]);
    }
  }

  lemma CharacterText(b: byte)
    ensures Encode(CodePoint(b)) == Text(b)
  {
    hide Text00, Text10, Text80, TextA0, TextC0, TextE0, Row00, Row80, RowA0, RowC0, RowE0;
    if b < 0x10 {
      Known00(b);
    } else if b < 0x20 {
      Known10(b);
    } else if 0x80 <= b < 0xA0 {
      Known80(b);
    } else if 0xA0 <= b < 0xC0 {
      KnownA0(b);
    } else if 0xC0 <= b < 0xE0 {
      KnownC0(b);
    } else if 0xE0 <= b {
      KnownE0(b);
    }
  }

  /** A name with characters of one, two and three bytes. */
  lemma KnownName()
    ensures Cp437ToUtf8([0x8E, 0x2F, 0xB0, 0x01]) == [0xC3, 0x84, 0x2F, 0xE2, 0x96, 0x91, 0xE2, 0x98, 0xBA]
  {
    hide Cp437ToUtf8;
    var name: seq<byte> := [0x8E, 0x2F, 0xB0, 0x01];
    NameText(name);
    assert name[1..] == [0x2F, 0xB0, 0x01] && name[1..][1..] == [0xB0, 0x01];
    assert name[1..][1..][1..] == [0x01] && name[1..][1..][1..][1..] == [];
  }

  /** A name with 0xC3 0xA9 is shown as it is if it is flagged, asked for raw, or taken for UTF-8; a strict look, or a
      byte behind it that makes it no text, shows two characters of the code page. */
  lemma ShownNames(d: Dirent, fl: NameFlags)
    requires d.filename == [0xC3, 0xA9] || d.filename == [0xC3, 0xA9, 0x01] || d.filename == [0x41]
    ensures DisplayName(d, fl) ==
      if d.bitflags / 0x800 % 2 == 1 || fl.raw || d.filename == [0x41] then d.filename
      else if d.filename == [0xC3, 0xA9, 0x01] then [0xE2, 0x94, 0x9C, 0xE2, 0x8C, 0x90, 0xE2, 0x98, 0xBA]
      else if fl.strict then [0xE2, 0x94, 0x9C, 0xE2, 0x8C, 0x90]
      else d.filename
  {
    hide Cp437ToUtf8, Guess, Text00, TextC0, TextA0;
    GuessedNames();
    var long, short: seq<byte> := [0xC3, 0xA9, 0x01], [0xC3, 0xA9];
    NameText(long);
    NameText(short);
    assert long[1..] == [0xA9, 0x01] && long[1..][1..] == [0x01] && long[1..][1..][1..] == [];
    assert short[1..] == [0xA9] && short[1..][1..] == [];
    ThreeTexts();
  }

  lemma GuessedNames()
    ensures Guess([0x41]) == Encoding.Ascii && Guess([0xC3, 0xA9]) == Utf8 && Guess([0xC3, 0xA9, 0x01]) == Cp437
  {
  }

  lemma ThreeTexts()
    ensures TextC0(0xC3) == [0xE2, 0x94, 0x9C] && TextA0(0xA9) == [0xE2, 0x8C, 0x90]
    ensures Text00(0x01) == [0xE2, 0x98, 0xBA]
  {
  }

  function Text00(b: byte): seq<byte> {
    match b
    case 0x00 => [0xE2, 0x80, 0x87] case 0x01 => [0xE2, 0x98, 0xBA] case 0x02 => [0xE2, 0x98, 0xBB]
    case 0x03 => [0xE2, 0x99, 0xA5] case 0x04 => [0xE2, 0x99, 0xA6] case 0x05 => [0xE2, 0x99, 0xA3]
    case 0x06 => [0xE2, 0x99, 0xA0] case 0x07 => [0xE2, 0x80, 0xA2] case 0x08 => [0xE2, 0x97, 0x98]
    case 0x09 => [0xE2, 0x97, 0x8B] case 0x0A => [0xE2, 0x97, 0x99] case 0x0B => [0xE2, 0x99, 0x82]
    case 0x0C => [0xE2, 0x99, 0x80] case 0x0D => [0xE2, 0x99, 0xAA] case 0x0E => [0xE2, 0x99, 0xAB]
    case _ => [0xE2, 0x98, 0xBC]
  }

  lemma Known00(b: byte)
    requires 0x00 <= b < 0x10
    ensures Encode(CodePoint(b)) == Text00(b)
  {
  }

  function Text10(b: byte): seq<byte> {
    match b
    case 0x10 => [0xE2, 0x96, 0xBA] case 0x11 => [0xE2, 0x97, 0x84] case 0x12 => [0xE2, 0x86, 0x95]
    case 0x13 => [0xE2, 0x80, 0xBC] case 0x14 => [0xC2, 0xB6] case 0x15 => [0xC2, 0xA7]
    case 0x16 => [0xE2, 0x96, 0xAC] case 0x17 => [0xE2, 0x86, 0xA8] case 0x18 => [0xE2, 0x86, 0x91]
    case 0x19 => [0xE2, 0x86, 0x93] case 0x1A => [0xE2, 0x86, 0x92] case 0x1B => [0xE2, 0x86, 0x90]
    case 0x1C => [0xE2, 0x88, 0x9F] case 0x1D => [0xE2, 0x86, 0x94] case 0x1E => [0xE2, 0x96, 0xB2]
    case _ => [0xE2, 0x96, 0xBC]
  }

  lemma Known10(b: byte)
    requires 0x10 <= b < 0x20
    ensures Encode(CodePoint(b)) == Text10(b)
  {
  }

  function Text80(b: byte): seq<byte> {
    match b
    case 0x80 => [0xC3, 0x87] case 0x81 => [0xC3, 0xBC] case 0x82 => [0xC3, 0xA9] case 0x83 => [0xC3, 0xA2]
    case 0x84 => [0xC3, 0xA4] case 0x85 => [0xC3, 0xA0] case 0x86 => [0xC3, 0xA5] case 0x87 => [0xC3, 0xA7]
    case 0x88 => [0xC3, 0xAA] case 0x89 => [0xC3, 0xAB] case 0x8A => [0xC3, 0xA8] case 0x8B => [0xC3, 0xAF]
    case 0x8C => [0xC3, 0xAE] case 0x8D => [0xC3, 0xAC] case 0x8E => [0xC3, 0x84] case 0x8F => [0xC3, 0x85]
    case 0x90 => [0xC3, 0x89] case 0x91 => [0xC3, 0xA6] case 0x92 => [0xC3, 0x86] case 0x93 => [0xC3, 0xB4]
    case 0x94 => [0xC3, 0xB6] case 0x95 => [0xC3, 0xB2] case 0x96 => [0xC3, 0xBB] case 0x97 => [0xC3, 0xB9]
    case 0x98 => [0xC3, 0xBF] case 0x99 => [0xC3, 0x96] case 0x9A => [0xC3, 0x9C] case 0x9B => [0xC2, 0xA2]
    case 0x9C => [0xC2, 0xA3] case 0x9D => [0xC2, 0xA5] case 0x9E => [0xE2, 0x82, 0xA7] case _ => [0xC6, 0x92]
  }

  lemma Known80(b: byte)
    requires 0x80 <= b < 0xA0
    ensures Encode(CodePoint(b)) == Text80(b)
  {
  }

  function TextA0(b: byte): seq<byte> {
    match b
    case 0xA0 => [0xC3, 0xA1] case 0xA1 => [0xC3, 0xAD] case 0xA2 => [0xC3, 0xB3] case 0xA3 => [0xC3, 0xBA]
    case 0xA4 => [0xC3, 0xB1] case 0xA5 => [0xC3, 0x91] case 0xA6 => [0xC2, 0xAA] case 0xA7 => [0xC2, 0xBA]
    case 0xA8 => [0xC2, 0xBF] case 0xA9 => [0xE2, 0x8C, 0x90] case 0xAA => [0xC2, 0xAC] case 0xAB => [0xC2, 0xBD]
    case 0xAC => [0xC2, 0xBC] case 0xAD => [0xC2, 0xA1] case 0xAE => [0xC2, 0xAB] case 0xAF => [0xC2, 0xBB]
    case 0xB0 => [0xE2, 0x96, 0x91] case 0xB1 => [0xE2, 0x96, 0x92] case 0xB2 => [0xE2, 0x96, 0x93]
    case 0xB3 => [0xE2, 0x94, 0x82] case 0xB4 => [0xE2, 0x94, 0xA4] case 0xB5 => [0xE2, 0x95, 0xA1]
    case 0xB6 => [0xE2, 0x95, 0xA2] case 0xB7 => [0xE2, 0x95, 0x96] case 0xB8 => [0xE2, 0x95, 0x95]
    case 0xB9 => [0xE2, 0x95, 0xA3] case 0xBA => [0xE2, 0x95, 0x91] case 0xBB => [0xE2, 0x95, 0x97]
    case 0xBC => [0xE2, 0x95, 0x9D] case 0xBD => [0xE2, 0x95, 0x9C] case 0xBE => [0xE2, 0x95, 0x9B]
    case _ => [0xE2, 0x94, 0x90]
  }

  lemma KnownA0(b: byte)
    requires 0xA0 <= b < 0xC0
    ensures Encode(CodePoint(b)) == TextA0(b)
  {
  }

  function TextC0(b: byte): seq<byte> {
    match b
    case 0xC0 => [0xE2, 0x94, 0x94] case 0xC1 => [0xE2, 0x94, 0xB4] case 0xC2 => [0xE2, 0x94, 0xAC]
    case 0xC3 => [0xE2, 0x94, 0x9C] case 0xC4 => [0xE2, 0x94, 0x80] case 0xC5 => [0xE2, 0x94, 0xBC]
    case 0xC6 => [0xE2, 0x95, 0x9E] case 0xC7 => [0xE2, 0x95, 0x9F] case 0xC8 => [0xE2, 0x95, 0x9A]
    case 0xC9 => [0xE2, 0x95, 0x94] case 0xCA => [0xE2, 0x95, 0xA9] case 0xCB => [0xE2, 0x95, 0xA6]
    case 0xCC => [0xE2, 0x95, 0xA0] case 0xCD => [0xE2, 0x95, 0x90] case 0xCE => [0xE2, 0x95, 0xAC]
    case 0xCF => [0xE2, 0x95, 0xA7] case 0xD0 => [0xE2, 0x95, 0xA8] case 0xD1 => [0xE2, 0x95, 0xA4]
    case 0xD2 => [0xE2, 0x95, 0xA5] case 0xD3 => [0xE2, 0x95, 0x99] case 0xD4 => [0xE2, 0x95, 0x98]
    case 0xD5 => [0xE2, 0x95, 0x92] case 0xD6 => [0xE2, 0x95, 0x93] case 0xD7 => [0xE2, 0x95, 0xAB]
    case 0xD8 => [0xE2, 0x95, 0xAA] case 0xD9 => [0xE2, 0x94, 0x98] case 0xDA => [0xE2, 0x94, 0x8C]
    case 0xDB => [0xE2, 0x96, 0x88] case 0xDC => [0xE2, 0x96, 0x84] case 0xDD => [0xE2, 0x96, 0x8C]
    case 0xDE => [0xE2, 0x96, 0x90] case _ => [0xE2, 0x96, 0x80]
  }

  lemma KnownC0(b: byte)
    requires 0xC0 <= b < 0xE0
    ensures Encode(CodePoint(b)) == TextC0(b)
  {
  }

  function TextE0(b: byte): seq<byte> {
    match b
    case 0xE0 => [0xCE, 0xB1] case 0xE1 => [0xC3, 0x9F] case 0xE2 => [0xCE, 0x93] case 0xE3 => [0xCF, 0x80]
    case 0xE4 => [0xCE, 0xA3] case 0xE5 => [0xCF, 0x83] case 0xE6 => [0xC2, 0xB5] case 0xE7 => [0xCF, 0x84]
    case 0xE8 => [0xCE, 0xA6] case 0xE9 => [0xCE, 0x98] case 0xEA => [0xCE, 0xA9] case 0xEB => [0xCE, 0xB4]
    case 0xEC => [0xE2, 0x88, 0x9E] case 0xED => [0xCF, 0x86] case 0xEE => [0xCE, 0xB5]
    case 0xEF => [0xE2, 0x88, 0xA9] case 0xF0 => [0xE2, 0x89, 0xA1] case 0xF1 => [0xC2, 0xB1]
    case 0xF2 => [0xE2, 0x89, 0xA5] case 0xF3 => [0xE2, 0x89, 0xA4] case 0xF4 => [0xE2, 0x8C, 0xA0]
    case 0xF5 => [0xE2, 0x8C, 0xA1] case 0xF6 => [0xC3, 0xB7] case 0xF7 => [0xE2, 0x89, 0x88]
    case 0xF8 => [0xC2, 0xB0] case 0xF9 => [0xE2, 0x88, 0x99] case 0xFA => [0xC2, 0xB7]
    case 0xFB => [0xE2, 0x88, 0x9A] case 0xFC => [0xE2, 0x81, 0xBF] case 0xFD => [0xC2, 0xB2]
    case 0xFE => [0xE2, 0x96, 0xA0] case _ => [0xC2, 0xA0]
  }

  lemma KnownE0(b: byte)
    requires 0xE0 <= b < 0x100
    ensures Encode(CodePoint(b)) == TextE0(b)
  {
  }
}
