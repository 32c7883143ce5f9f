/** Names in code page 437 and UTF-8: guessing which it is, and converting the one to the other. */
module Encodings {
  import opened Bytes

  datatype Encoding = Ascii | Utf8 | Cp437

  // ----- guessing

  predicate Plain(b: byte) {
    31 < b < 128 || b == 0x0D || b == 0x0A || b == 0x09
  }

  /** How many bytes have to follow a leading byte, by its top bits (110, 1110 or 11110). */
  function Followers(b: byte): Option<nat> {
    if b / 0x20 == 0x06 then Some(1)
    else if b / 0x10 == 0x0E then Some(2)
    else if b / 0x08 == 0x1E then Some(3)
    else None
  }

  /** The top bits are 10. */
  predicate Continues(b: byte) {
    b / 0x40 == 0x02
  }

  /** What the rest s of a name makes of it when what came before was `seen`. */
  function Classify(s: seq<byte>, seen: Encoding): Encoding {
    if s == [] then seen
    else if Plain(s[0]) then Classify(s[1..], seen)
    else match Followers(s[0])
      case None => Cp437
      case Some(n) =>
        if n < |s| && (forall j | 1 <= j <= n :: Continues(s[j])) then Classify(s[n + 1..], Utf8) else Cp437
  }

  function Guess(s: seq<byte>): Encoding {
    Classify(s, Ascii)
  }

  /** `_zip_guess_encoding` */
  method GuessEncoding(name: seq<byte>) returns (r: Encoding)
    ensures r == Guess(name)
  {
    r := Ascii;
    var i := 0;
    while i < |name|
      invariant 0 <= i <= |name|
      invariant Classify(name[i..], r) == Guess(name)
    {
      if Plain(name[i]) {
        assert name[i..][1..] == name[i + 1..];
        i := i + 1;
        continue;
      }
      r := Utf8;
      var lead := Followers(name[i]);
      if lead == None {
        return Cp437;
      }
      var ulen := lead.value;
      if i + ulen >= |name| {
        return Cp437;
      }
      var j := 1;
      while j <= ulen
        invariant 1 <= j <= ulen + 1
        invariant forall k | 1 <= k < j :: Continues(name[i..][k])
      {
        if !Continues(name[i + j]) {
          assert !Continues(name[i..][j]);
          return Cp437;
        }
        j := j + 1;
      }
      assert name[i..][ulen + 1..] == name[i + ulen + 1..];
      i := i + ulen + 1;
    }
  }

  /** One character of a text: a plain byte, or a leading byte with as many continuation bytes as it asks for. */
  predicate IsUnit(u: seq<byte>) {
    && u != []
    && (if Plain(u[0]) then |u| == 1 else Followers(u[0]) == Some(|u| - 1 as nat))
    && forall j | 1 <= j < |u| :: Continues(u[j])
  }

  /** The units by their bytes: a printable character or tab, line feed or carriage return, or a leading byte with the
      one, two or three bytes it announces. */
  lemma UnitsAre(u: seq<byte>)
    ensures IsUnit(u) <==>
      || (|u| == 1 && (0x20 <= u[0] < 0x80 || u[0] == 9 || u[0] == 10 || u[0] == 13))
      || (|u| == 2 && 0xC0 <= u[0] < 0xE0 && 0x80 <= u[1] < 0xC0)
      || (|u| == 3 && 0xE0 <= u[0] < 0xF0 && 0x80 <= u[1] < 0xC0 && 0x80 <= u[2] < 0xC0)
      || (|u| == 4 && 0xF0 <= u[0] < 0xF8 && forall i | 1 <= i < 4 :: 0x80 <= u[i] < 0xC0)
  {
  }

  function Flatten(units: seq<seq<byte>>): seq<byte> {
    if units == [] then [] else units[0] + Flatten(units[1..])
  }

  predicate AllUnits(units: seq<seq<byte>>) {
    forall u <- units :: IsUnit(u)
  }

  /** A text is not taken for code page 437 exactly when it is made of whole characters. */
  lemma GuessIsText(s: seq<byte>)
    ensures Guess(s) != Cp437 <==> exists units :: AllUnits(units) && Flatten(units) == s
    ensures Guess(s) == Ascii <==> forall b <- s :: Plain(b)
  {
    if Guess(s) != Cp437 {
      var units := Split(s, Ascii);
    }
    forall units | AllUnits(units) && Flatten(units) == s
      ensures Guess(s) != Cp437
    {
      UnitsClassify(units, Ascii);
    }
    AsciiIsPlain(s, Ascii);
  }

  lemma {:induction false} AsciiIsPlain(s: seq<byte>, seen: Encoding)
    ensures Classify(s, seen) == Ascii <==> seen == Ascii && forall b <- s :: Plain(b)
    decreases |s|
  {
    if s != [] {
      assert s == [s[0]] + s[1..];
      if Plain(s[0]) {
        AsciiIsPlain(s[1..], seen);
      } else if Followers(s[0]).Some? && Followers(s[0]).value < |s| {
        AsciiIsPlain(s[Followers(s[0]).value + 1..], Utf8);
      }
    }
  }

  lemma {:induction false} Split(s: seq<byte>, seen: Encoding) returns (units: seq<seq<byte>>)
    requires Classify(s, seen) != Cp437
    ensures AllUnits(units) && Flatten(units) == s
    decreases |s|
  {
    if s == [] {
      units := [];
    } else {
      var n := if Plain(s[0]) then 0 else Followers(s[0]).value;
      var rest := Split(s[n + 1..], if Plain(s[0]) then seen else Utf8);
      units := [s[..n + 1]] + rest;
      assert IsUnit(s[..n + 1]);
      assert units[1..] == rest;
    }
  }

  lemma {:induction false} UnitsClassify(units: seq<seq<byte>>, seen: Encoding)
    requires AllUnits(units) && seen != Cp437
    ensures Classify(Flatten(units), seen) != Cp437
    decreases |units|
  {
    if units != [] {
      var u, s := units[0], Flatten(units);
      assert IsUnit(u);
      assert s[0] == u[0] && s[|u|..] == Flatten(units[1..]);
      assert forall j | 1 <= j < |u| :: s[j] == u[j];
      UnitsClassify(units[1..], if Plain(u[0]) then seen else Utf8);
    }
  }

  // ----- UTF-8

  /** A Unicode scalar value: a code point that is no surrogate. */
  type Scalar = c: int | 0 <= c < 0xD800 || 0xE000 <= c < 0x11_0000

  /** `_zip_unicode_to_utf8_len` */
  function Utf8Len(c: Scalar): (n: nat)
    ensures n == |Encode(c)|
  {
    if c < 0x0080 then 1 else if c < 0x0800 then 2 else if c < 0x10000 then 3 else 4
  }

  /** The bytes `_zip_unicode_to_utf8` puts. */
  function Encode(c: Scalar): seq<byte> {
    if c < 0x0080 then [c]
    else if c < 0x0800 then [0xC0 + c / 0x40 % 0x20, 0x80 + c % 0x40]
    else if c < 0x10000 then [0xE0 + c / 0x1000 % 0x10, 0x80 + c / 0x40 % 0x40, 0x80 + c % 0x40]
    else [0xF0 + c / 0x4_0000 % 0x08, 0x80 + c / 0x1000 % 0x40, 0x80 + c / 0x40 % 0x40, 0x80 + c % 0x40]
  }

  /** The first character of s and the number of its bytes, after RFC 3629 section 3: the shortest form only,
      no surrogate, nothing above U+10FFFF. */
  function DecodeOne(s: seq<byte>): Option<(Scalar, nat)>
    requires s != []
  {
    if s[0] < 0x80 then Some((s[0], 1))
    else match Followers(s[0])
      case None => None
      case Some(n) =>
        if n >= |s| || exists j | 1 <= j <= n :: !Continues(s[j]) then None
        else
          var lead: int, second: int := s[0], s[1];
          var c := if n == 1 then (lead - 0xC0) * 0x40 + (second - 0x80)
                   else
                     var third: int := s[2];
                     if n == 2 then ((lead - 0xE0) * 0x40 + (second - 0x80)) * 0x40 + (third - 0x80)
                     else
                       var fourth: int := s[3];
                       (((lead - 0xF0) * 0x40 + (second - 0x80)) * 0x40 + (third - 0x80)) * 0x40 + (fourth - 0x80);
          var least := if n == 1 then 0x80 else if n == 2 then 0x800 else 0x1_0000;
          if least <= c < 0xD800 || (0xE000 <= c < 0x11_0000 && least <= c) then Some((c, n + 1)) else None
  }

  function Decode(s: seq<byte>): Option<seq<Scalar>>
    decreases |s|
  {
    if s == [] then Some([])
    else match DecodeOne(s)
      case None => None
      case Some((c, n)) =>
        if 1 <= n <= |s| then
          match Decode(s[n..])
          case None => None
          case Some(rest) => Some([c] + rest)
        else None
  }

  lemma DecodeEncode(c: Scalar, more: seq<byte>)
    ensures DecodeOne(Encode(c) + more) == Some((c, |Encode(c)|))
  {
    if c < 0x0800 {
      DecodeShort(c, more);
    } else if c < 0x10000 {
      DecodeThree(c, more);
    } else {
      DecodeFour(c, more);
    }
  }

  lemma DecodeShort(c: Scalar, more: seq<byte>)
    requires c < 0x0800
    ensures DecodeOne(Encode(c) + more) == Some((c, |Encode(c)|))
  {
  }

  lemma DecodeThree(c: Scalar, more: seq<byte>)
    requires 0x0800 <= c < 0x10000
    ensures DecodeOne(Encode(c) + more) == Some((c, 3))
  {
    var q := c / 0x40;
    assert c == q * 0x40 + c % 0x40 && q == q / 0x40 * 0x40 + q % 0x40;
    assert c / 0x1000 == q / 0x40 < 0x10;
    var s := Encode(c) + more;
    assert s[0] == 0xE0 + q / 0x40 && s[1] == 0x80 + q % 0x40 && s[2] == 0x80 + c % 0x40;
    assert Followers(s[0]) == Some(2);
    assert Continues(s[1]) && Continues(s[2]);
  }

  /** A code point in groups of six bits. */
  lemma SixBits(c: Scalar)
    ensures var q := c / 0x40; var p := q / 0x40;
      && c == q * 0x40 + c % 0x40 && q == p * 0x40 + q % 0x40 && p == p / 0x40 * 0x40 + p % 0x40
      && c / 0x1000 == p && c / 0x4_0000 == p / 0x40 < 0x08
  {
  }

  lemma DecodeFour(c: Scalar, more: seq<byte>)
    requires 0x10000 <= c
    ensures DecodeOne(Encode(c) + more) == Some((c, 4))
  {
    SixBits(c);
    var q := c / 0x40;
    var p := q / 0x40;
    var s := Encode(c) + more;
    assert s[0] == 0xF0 + p / 0x40 && s[1] == 0x80 + p % 0x40 && s[2] == 0x80 + q % 0x40 && s[3] == 0x80 + c % 0x40;
    assert Followers(s[0]) == Some(3);
    assert Continues(s[1]) && Continues(s[2]) && Continues(s[3]);
  }

  function EncodeAll(cs: seq<Scalar>): seq<byte> {
    if cs == [] then [] else Encode(cs[0]) + EncodeAll(cs[1..])
  }

  lemma {:induction false} EncodeAllLast(cs: seq<Scalar>, c: Scalar)
    ensures EncodeAll(cs + [c]) == EncodeAll(cs) + Encode(c)
  {
    if cs == [] {
      assert EncodeAll([c]) == Encode(c) + [];
    } else {
      assert (cs + [c])[1..] == cs[1..] + [c];
      EncodeAllLast(cs[1..], c);
    }
  }

  /** Decoding undoes encoding for every sequence of scalar values. */
  lemma {:induction false} Utf8RoundTrip(cs: seq<Scalar>)
    ensures Decode(EncodeAll(cs)) == Some(cs)
  {
    if cs != [] {
      var s := EncodeAll(cs);
      DecodeEncode(cs[0], EncodeAll(cs[1..]));
      assert s[|Encode(cs[0])|..] == EncodeAll(cs[1..]);
      Utf8RoundTrip(cs[1..]);
      assert cs == [cs[0]] + cs[1..];
    }
  }

  // ----- code page 437

  /** The table entries `_cp437_to_unicode` outside ASCII: none is a surrogate, none is ASCII. */
  type Graphic = c: Scalar | 0x80 <= c < 0x10000 witness 0x80

  function Row00(b: byte): Graphic {
    match b
    case 0x00 => 0x2007 case 0x01 => 0x263A case 0x02 => 0x263B case 0x03 => 0x2665
    case 0x04 => 0x2666 case 0x05 => 0x2663 case 0x06 => 0x2660 case 0x07 => 0x2022
    case 0x08 => 0x25D8 case 0x09 => 0x25CB case 0x0A => 0x25D9 case 0x0B => 0x2642
    case 0x0C => 0x2640 case 0x0D => 0x266A case 0x0E => 0x266B case 0x0F => 0x263C
    case 0x10 => 0x25BA case 0x11 => 0x25C4 case 0x12 => 0x2195 case 0x13 => 0x203C
    case 0x14 => 0x00B6 case 0x15 => 0x00A7 case 0x16 => 0x25AC case 0x17 => 0x21A8
    case 0x18 => 0x2191 case 0x19 => 0x2193 case 0x1A => 0x2192 case 0x1B => 0x2190
    case 0x1C => 0x221F case 0x1D => 0x2194 case 0x1E => 0x25B2 case _ => 0x25BC
  }

  function Row80(b: byte): Graphic {
    match b
    case 0x80 => 0x00C7 case 0x81 => 0x00FC case 0x82 => 0x00E9 case 0x83 => 0x00E2
    case 0x84 => 0x00E4 case 0x85 => 0x00E0 case 0x86 => 0x00E5 case 0x87 => 0x00E7
    case 0x88 => 0x00EA case 0x89 => 0x00EB case 0x8A => 0x00E8 case 0x8B => 0x00EF
    case 0x8C => 0x00EE case 0x8D => 0x00EC case 0x8E => 0x00C4 case 0x8F => 0x00C5
    case 0x90 => 0x00C9 case 0x91 => 0x00E6 case 0x92 => 0x00C6 case 0x93 => 0x00F4
    case 0x94 => 0x00F6 case 0x95 => 0x00F2 case 0x96 => 0x00FB case 0x97 => 0x00F9
    case 0x98 => 0x00FF case 0x99 => 0x00D6 case 0x9A => 0x00DC case 0x9B => 0x00A2
    case 0x9C => 0x00A3 case 0x9D => 0x00A5 case 0x9E => 0x20A7 case _ => 0x0192
  }

  function RowA0(b: byte): Graphic {
    match b
    case 0xA0 => 0x00E1 case 0xA1 => 0x00ED case 0xA2 => 0x00F3 case 0xA3 => 0x00FA
    case 0xA4 => 0x00F1 case 0xA5 => 0x00D1 case 0xA6 => 0x00AA case 0xA7 => 0x00BA
    case 0xA8 => 0x00BF case 0xA9 => 0x2310 case 0xAA => 0x00AC case 0xAB => 0x00BD
    case 0xAC => 0x00BC case 0xAD => 0x00A1 case 0xAE => 0x00AB case 0xAF => 0x00BB
    case 0xB0 => 0x2591 case 0xB1 => 0x2592 case 0xB2 => 0x2593 case 0xB3 => 0x2502
    case 0xB4 => 0x2524 case 0xB5 => 0x2561 case 0xB6 => 0x2562 case 0xB7 => 0x2556
    case 0xB8 => 0x2555 case 0xB9 => 0x2563 case 0xBA => 0x2551 case 0xBB => 0x2557
    case 0xBC => 0x255D case 0xBD => 0x255C case 0xBE => 0x255B case _ => 0x2510
  }

  function RowC0(b: byte): Graphic {
    match b
    case 0xC0 => 0x2514 case 0xC1 => 0x2534 case 0xC2 => 0x252C case 0xC3 => 0x251C
    case 0xC4 => 0x2500 case 0xC5 => 0x253C case 0xC6 => 0x255E case 0xC7 => 0x255F
    case 0xC8 => 0x255A case 0xC9 => 0x2554 case 0xCA => 0x2569 case 0xCB => 0x2566
    case 0xCC => 0x2560 case 0xCD => 0x2550 case 0xCE => 0x256C case 0xCF => 0x2567
    case 0xD0 => 0x2568 case 0xD1 => 0x2564 case 0xD2 => 0x2565 case 0xD3 => 0x2559
    case 0xD4 => 0x2558 case 0xD5 => 0x2552 case 0xD6 => 0x2553 case 0xD7 => 0x256B
    case 0xD8 => 0x256A case 0xD9 => 0x2518 case 0xDA => 0x250C case 0xDB => 0x2588
    case 0xDC => 0x2584 case 0xDD => 0x258C case 0xDE => 0x2590 case _ => 0x2580
  }

  function RowE0(b: byte): Graphic {
    match b
    case 0xE0 => 0x03B1 case 0xE1 => 0x00DF case 0xE2 => 0x0393 case 0xE3 => 0x03C0
    case 0xE4 => 0x03A3 case 0xE5 => 0x03C3 case 0xE6 => 0x00B5 case 0xE7 => 0x03C4
    case 0xE8 => 0x03A6 case 0xE9 => 0x0398 case 0xEA => 0x03A9 case 0xEB => 0x03B4
    case 0xEC => 0x221E case 0xED => 0x03C6 case 0xEE => 0x03B5 case 0xEF => 0x2229
    case 0xF0 => 0x2261 case 0xF1 => 0x00B1 case 0xF2 => 0x2265 case 0xF3 => 0x2264
    case 0xF4 => 0x2320 case 0xF5 => 0x2321 case 0xF6 => 0x00F7 case 0xF7 => 0x2248
    case 0xF8 => 0x00B0 case 0xF9 => 0x2219 case 0xFA => 0x00B7 case 0xFB => 0x221A
    case 0xFC => 0x207F case 0xFD => 0x00B2 case 0xFE => 0x25A0 case _ => 0x00A0
  }

  /** `_cp437_to_unicode` */
  function CodePoint(b: byte): (c: Scalar)
    ensures 0x20 <= c < 0x10000
    ensures 0x20 <= b <= 0x7E ==> c == b
    ensures c < 0x80 ==> 0x20 <= b <= 0x7E
  {
    if b < 0x20 then Row00(b)
    else if b < 0x7F then b
    else if b == 0x7F then 0x2302
    else if b < 0xA0 then Row80(b)
    else if b < 0xC0 then RowA0(b)
    else if b < 0xE0 then RowC0(b)
    else RowE0(b)
  }

  function CodePoints(s: seq<byte>): (cs: seq<Scalar>)
    ensures |cs| == |s|
  {
    seq(|s|, i requires 0 <= i < |s| => CodePoint(s[i]))
  }

  /** The text of a code page 437 string in UTF-8. */
  function Cp437ToUtf8(s: seq<byte>): seq<byte> {
    EncodeAll(CodePoints(s))
  }

  /** The size the first pass adds up. */
  function Utf8Size(s: seq<byte>): nat {
    if s == [] then 0 else Utf8Size(s[..|s| - 1]) + Utf8Len(CodePoint(s[|s| - 1]))
  }

  lemma CodePointsLast(s: seq<byte>, i: nat)
    requires i < |s|
    ensures CodePoints(s[..i + 1]) == CodePoints(s[..i]) + [CodePoint(s[i])]
    ensures s[..i + 1][..i] == s[..i]
    ensures Cp437ToUtf8(s[..i + 1]) == Cp437ToUtf8(s[..i]) + Encode(CodePoint(s[i]))
  {
    EncodeAllLast(CodePoints(s[..i]), CodePoint(s[i]));
  }

  /** The first pass counts exactly what the second one writes. */
  lemma {:induction false} SizesAgree(s: seq<byte>, i: nat)
    requires i <= |s|
    ensures Utf8Size(s[..i]) == |Cp437ToUtf8(s[..i])|
  {
    if i > 0 {
      CodePointsLast(s, i - 1);
      SizesAgree(s, i - 1);
    }
  }

  lemma {:induction false} SizesGrow(s: seq<byte>, i: nat, j: nat)
    requires i <= j <= |s|
    ensures Utf8Size(s[..i]) <= Utf8Size(s[..j])
    decreases j
  {
    if i < j {
      assert s[..j][..j - 1] == s[..j - 1];
      SizesGrow(s, i, j - 1);
    }
  }

  /** `_zip_unicode_to_utf8`: puts the bytes of c at buf[offset..] and returns how many. */
  method UnicodeToUtf8(c: Scalar, buf: array<byte>, offset: nat) returns (n: nat)
    requires offset + Utf8Len(c) <= buf.Length
    modifies buf
    ensures n == Utf8Len(c)
    ensures buf[..] == old(buf[..offset]) + Encode(c) + old(buf[offset + n..])
  {
    if c < 0x0080 {
      buf[offset] := c;
      return 1;
    }
    if c < 0x0800 {
      buf[offset] := 0xC0 + c / 0x40 % 0x20;
      buf[offset + 1] := 0x80 + c % 0x40;
      return 2;
    }
    if c < 0x10000 {
      buf[offset] := 0xE0 + c / 0x1000 % 0x10;
      buf[offset + 1] := 0x80 + c / 0x40 % 0x40;
      buf[offset + 2] := 0x80 + c % 0x40;
      return 3;
    }
    buf[offset] := 0xF0 + c / 0x4_0000 % 0x08;
    buf[offset + 1] := 0x80 + c / 0x1000 % 0x40;
    buf[offset + 2] := 0x80 + c / 0x40 % 0x40;
    buf[offset + 3] := 0x80 + c % 0x40;
    n := 4;
  }

  /** The index under which a character is looked up in `_cp437_to_unicode`: the source uses a plain `char`. */
  function TableIndex(b: byte, signedChars: bool): int {
    if signedChars && b >= 0x80 then b - 0x100 else b
  }

  /** Every character of s is looked up inside the table. */
  predicate InTable(s: seq<byte>, signedChars: bool) {
    forall i | 0 <= i < |s| :: 0 <= TableIndex(s[i], signedChars) < 0x100
  }

  /** They are exactly when characters are unsigned or s is ASCII; and then each finds its own entry. */
  lemma InTableIff(s: seq<byte>, signedChars: bool)
    ensures InTable(s, signedChars) <==> !signedChars || forall i | 0 <= i < |s| :: s[i] < 0x80
    ensures InTable(s, signedChars) ==> forall i | 0 <= i < |s| :: TableIndex(s[i], signedChars) == s[i]
  {
    if signedChars && InTable(s, signedChars) {
      forall i | 0 <= i < |s| ensures s[i] < 0x80 {
        assert 0 <= TableIndex(s[i], signedChars);
      }
    }
  }

  /** A name of the one character 0x80, which is the one the table is there for, fails when characters are signed. */
  lemma SignedCharacterOutside()
    ensures !InTable([0x80], true) && Guess([0x80]) == Cp437
  {
    InTableIff([0x80], true);
    assert [0x80][0] >= 0x80;
  }

  /** `_zip_cp437_to_utf8`: None for the empty string, else a NUL-terminated buffer of exactly the right size. */
  method Convert(cp437: seq<byte>, signedChars: bool) returns (r: Option<seq<byte>>)
    requires InTable(cp437, signedChars)
    ensures r == if cp437 == [] then None else Some(Cp437ToUtf8(cp437))
  {
    hide CodePoint, Encode, Utf8Size, Utf8Len, Cp437ToUtf8, TableIndex, InTable;
    if |cp437| == 0 {
      return None;
    }
    var size := CountBytes(cp437, signedChars);
    var buflen := size + 1;
    var buf := new byte[buflen](_ => 0);
    var offset: nat := 0;
    NothingConverted();
    for i := 0 to |cp437|
      invariant offset == Utf8Size(cp437[..i]) < buflen
      invariant buf[..offset] == Cp437ToUtf8(cp437[..i])
    {
      SizesGrow(cp437, i, i + 1);
      SizesGrow(cp437, i + 1, |cp437|);
      var n := PutNext(cp437, i, signedChars, buf, offset);
      offset := offset + n;
    }
    SizesAgree(cp437, |cp437|);
    buf[buflen - 1] := 0;
    r := Some(buf[..buflen - 1]);
  }

  /** One round of the second pass of `_zip_cp437_to_utf8` */
  method PutNext(cp437: seq<byte>, i: nat, signedChars: bool, buf: array<byte>, offset: nat) returns (n: nat)
    requires InTable(cp437, signedChars) && i < |cp437|
    requires offset == Utf8Size(cp437[..i]) <= Utf8Size(cp437[..i + 1]) <= buf.Length
    requires buf[..offset] == Cp437ToUtf8(cp437[..i])
    modifies buf
    ensures offset + n == Utf8Size(cp437[..i + 1])
    ensures buf[..offset + n] == Cp437ToUtf8(cp437[..i + 1])
  {
    hide CodePoint, Encode, Utf8Size, Utf8Len, Cp437ToUtf8, TableIndex, InTable;
    InTableIff(cp437, signedChars);
    CodePointsLast(cp437, i);
    SizesAgree(cp437, i);
    SizesAgree(cp437, i + 1);
    ghost var before := buf[..offset];
    n := UnicodeToUtf8(CodePoint(TableIndex(cp437[i], signedChars)), buf, offset);
    assert buf[..offset + n] == before + Encode(CodePoint(cp437[i]));
  }

  /** The first pass of `_zip_cp437_to_utf8` */
  method CountBytes(cp437: seq<byte>, signedChars: bool) returns (size: nat)
    requires InTable(cp437, signedChars)
    ensures size == Utf8Size(cp437) && cp437[..|cp437|] == cp437
  {
    hide CodePoint, Utf8Len, TableIndex;
    InTableIff(cp437, signedChars);
    size := 0;
    for i := 0 to |cp437|
      invariant size == Utf8Size(cp437[..i])
    {
      assert cp437[..i + 1][..i] == cp437[..i];
      size := size + Utf8Len(CodePoint(TableIndex(cp437[i], signedChars)));
    }
    assert cp437[..|cp437|] == cp437;
  }

  lemma NothingConverted()
    ensures Utf8Size([]) == 0 && Cp437ToUtf8([]) == []
  {
  }

  /** A converted name decodes to the table's characters in order, and is never taken for code page 437 again. */
  lemma {:induction false} ConvertedText(s: seq<byte>)
    ensures Decode(Cp437ToUtf8(s)) == Some(CodePoints(s))
    ensures Guess(Cp437ToUtf8(s)) != Cp437
  {
    Utf8RoundTrip(CodePoints(s));
    var units := seq(|s|, i requires 0 <= i < |s| => Encode(CodePoint(s[i])));
    forall u <- units
      ensures IsUnit(u)
    {
      var i :| 0 <= i < |s| && u == Encode(CodePoint(s[i]));
      EncodedUnit(CodePoint(s[i]));
    }
    FlattenUnits(s, units);
    GuessIsText(Cp437ToUtf8(s));
  }

  lemma EncodedUnit(c: Scalar)
    requires c >= 0x20
    ensures IsUnit(Encode(c))
  {
  }

  lemma {:induction false} FlattenUnits(s: seq<byte>, units: seq<seq<byte>>)
    requires |units| == |s| && forall i | 0 <= i < |s| :: units[i] == Encode(CodePoint(s[i]))
    ensures Flatten(units) == Cp437ToUtf8(s)
  {
    if s != [] {
      FlattenUnits(s[1..], units[1..]);
      assert CodePoints(s)[1..] == CodePoints(s[1..]);
    }
  }

  /** No NUL appears in a converted name. */
  lemma {:induction false} ConvertedHasNoNul(s: seq<byte>)
    ensures 0 !in Cp437ToUtf8(s)
  {
    if s != [] {
      assert CodePoints(s)[1..] == CodePoints(s[1..]);
      ConvertedHasNoNul(s[1..]);
      assert 0 !in Encode(CodePoint(s[0]));
    }
  }

  lemma ControlInjective(a: byte, b: byte)
    requires CodePoint(a) == CodePoint(b) && a < 0x20
    ensures a == b
  {
    hide Row00, Row80, RowA0, RowC0, RowE0;
    if b < 0x20 {
      Row00Injective(a, b);
    } else if b >= 0x7F {
      Row00Apart(a, b);
    }
  }

  lemma Row00Injective(a: byte, b: byte)
    requires Row00(a) == Row00(b) && a < 0x20 && b < 0x20
    ensures a == b
  {
  }

  lemma Row00Apart(a: byte, b: byte)
    requires a < 0x20 && 0x7F <= b
    ensures CodePoint(a) != CodePoint(b)
  {
    hide Row00, Row80, RowA0, RowC0, RowE0, ShownControl;
    assert ShownControl(Row00(a)) by { ShownControls(a); }
    OtherRows(b);
  }

  /** The characters that stand for control codes. */
  predicate ShownControl(c: int) {
    c in {0x2007, 0x263A, 0x263B, 0x2665, 0x2666, 0x2663, 0x2660, 0x2022, 0x25D8, 0x25CB, 0x25D9,
          0x2642, 0x2640, 0x266A, 0x266B, 0x263C, 0x25BA, 0x25C4, 0x2195, 0x203C, 0x00B6, 0x00A7,
          0x25AC, 0x21A8, 0x2191, 0x2193, 0x2192, 0x2190, 0x221F, 0x2194, 0x25B2, 0x25BC}
  }

  lemma ShownControls(a: byte)
    requires a < 0x20
    ensures ShownControl(Row00(a))
  {
  }

  lemma OtherRows(b: byte)
    requires 0x7F <= b
    ensures !ShownControl(CodePoint(b))
  {
    hide Row00, Row80, RowA0, RowC0, RowE0;
    if 0x80 <= b < 0xA0 {
      Row80Other(b);
    } else if 0xA0 <= b < 0xC0 {
      RowA0Other(b);
    } else if 0xC0 <= b < 0xE0 {
      RowC0Other(b);
    } else if 0xE0 <= b {
      RowE0Other(b);
    }
  }

  lemma Row80Other(b: byte)
    requires 0x80 <= b < 0xA0
    ensures !ShownControl(Row80(b))
  {
  }

  lemma RowA0Other(b: byte)
    requires 0xA0 <= b < 0xC0
    ensures !ShownControl(RowA0(b))
  {
  }

  lemma RowC0Other(b: byte)
    requires 0xC0 <= b < 0xE0
    ensures !ShownControl(RowC0(b))
  {
  }

  lemma RowE0Other(b: byte)
    requires 0xE0 <= b
    ensures !ShownControl(RowE0(b))
  {
  }

  lemma Row80Injective(a: byte, b: byte)
    requires CodePoint(a) == CodePoint(b) && 0x7F <= a < 0xA0 && 0x20 <= b
    ensures a == b
  {
  }

  lemma RowA0Injective(a: byte, b: byte)
    requires CodePoint(a) == CodePoint(b) && 0xA0 <= a < 0xC0 && 0xA0 <= b
    ensures a == b
  {
  }

  lemma RowC0Injective(a: byte, b: byte)
    requires CodePoint(a) == CodePoint(b) && 0xC0 <= a < 0xE0 && 0xC0 <= b
    ensures a == b
  {
  }

  lemma RowE0Injective(a: byte, b: byte)
    requires CodePoint(a) == CodePoint(b) && 0xE0 <= a && 0xE0 <= b
    ensures a == b
  {
  }

  /** Every code point of the table stands for one byte only. */
  lemma TableInjective(a: byte, b: byte)
    requires CodePoint(a) == CodePoint(b)
    ensures a == b
    decreases a > b
  {
    hide CodePoint;
    if a > b {
      TableInjective(b, a);
    } else if a < 0x20 {
      ControlInjective(a, b);
    } else if 0x7F <= a < 0xA0 {
      Row80Injective(a, b);
    } else if 0xA0 <= a < 0xC0 {
      RowA0Injective(a, b);
    } else if 0xC0 <= a < 0xE0 {
      RowC0Injective(a, b);
    } else if 0xE0 <= a {
      RowE0Injective(a, b);
    }
  }

  /** Conversion keeps different names different. */
  lemma {:induction false} ConversionInjective(s: seq<byte>, t: seq<byte>)
    requires Cp437ToUtf8(s) == Cp437ToUtf8(t)
    ensures s == t
  {
    Utf8RoundTrip(CodePoints(s));
    Utf8RoundTrip(CodePoints(t));
    assert |s| == |CodePoints(s)| == |t|;
    forall i | 0 <= i < |s|
      ensures s[i] == t[i]
    {
      assert CodePoints(s)[i] == CodePoints(t)[i];
      TableInjective(s[i], t[i]);
    }
  }
}
