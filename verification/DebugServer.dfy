/** The debugserver client of libimobiledevice: GDB remote serial packets, their checksums and hexadecimal arguments. */
module DebugServer {
  import opened Bytes

  const HASH: byte := 35
  const DOLLAR: byte := 36
  const PLUS: byte := 43
  const MINUS: byte := 45

  // ----- hexadecimal

  /** What a `char` is as an `int`. */
  function Signed(c: byte): int {
    if c < 0x80 then c else c - 0x100
  }

  /** `debugserver_hex2int`: anything that is no digit stands for itself. */
  function HexToInt(c: byte): int {
    if 48 <= c <= 57 then c - 48
    else if 97 <= c <= 102 then c - 87
    else if 65 <= c <= 70 then c - 55
    else Signed(c)
  }

  /** `debugserver_int2hex` */
  function IntToHex(x: int): (c: byte)
    requires 0 <= x < 16
    ensures HexToInt(c) == x && c != 0 && c != HASH
  {
    if x < 10 then 48 + x else 55 + x
  }

  /** The digits of a last byte: `(v >> 4) & 0xf` and `v & 0xf` */
  function HighDigit(v: nat): (d: nat)
    ensures d < 16
  {
    v / 16 % 16
  }

  function LowDigit(v: nat): (d: nat)
    ensures d < 16
  {
    v % 16
  }

  function HexPair(v: nat): (s: seq<byte>)
    ensures |s| == 2 && HexToInt(s[0]) == HighDigit(v) && HexToInt(s[1]) == LowDigit(v)
    ensures s[0] != 0 && s[1] != 0 && s[0] != HASH && s[1] != HASH
  {
    [IntToHex(HighDigit(v)), IntToHex(LowDigit(v))]
  }

  function Hex(s: seq<byte>): (h: seq<byte>)
    ensures |h| == 2 * |s|
    decreases |s|
  {
    if s == [] then [] else Hex(s[..|s| - 1]) + HexPair(s[|s| - 1])
  }

  /** Bitwise or of the low n bits. */
  function OrBits(x: nat, y: nat, n: nat): nat {
    if n == 0 then 0 else 2 * OrBits(x / 2, y / 2, n - 1) + if x % 2 == 1 || y % 2 == 1 then 1 else 0
  }

  function Pow2(n: nat): (p: nat)
    ensures p > 0
  {
    if n == 0 then 1 else 2 * Pow2(n - 1)
  }

  lemma {:induction false} OrBound(x: nat, y: nat, n: nat)
    ensures OrBits(x, y, n) < Pow2(n)
  {
    if n > 0 {
      OrBound(x / 2, y / 2, n - 1);
    }
  }

  lemma {:induction false} OrNothing(x: nat, n: nat)
    requires x < Pow2(n)
    ensures OrBits(x, 0, n) == x
  {
    if n > 0 {
      OrNothing(x / 2, n - 1);
    }
  }

  /** Bits below a shifted number are added to it. */
  lemma {:induction false} OrShifted(x: nat, y: nat, k: nat, n: nat)
    requires k <= n && y < Pow2(k) && x < Pow2(n - k)
    ensures OrBits(x * Pow2(k), y, n) == x * Pow2(k) + y
  {
    if k == 0 {
      OrNothing(x, n);
    } else {
      OrShifted(x, y / 2, k - 1, n - 1);
      var half := x * Pow2(k - 1);
      assert x * Pow2(k) == 2 * half;
    }
  }

  /** `hex2int(a) << 4 | hex2int(b)`, as far as a `char` keeps it */
  function Nibbles(a: int, b: int): byte {
    OrBound(16 * a % 0x100, b % 0x100, 8);
    assert Pow2(8) == 0x100;
    OrBits(16 * a % 0x100, b % 0x100, 8)
  }

  lemma NibblesOfDigits(a: int, b: int)
    requires 0 <= a < 16 && 0 <= b < 16
    ensures Nibbles(a, b) == 16 * a + b
  {
    hide OrBits, Pow2;
    SixteenBits();
    OrShifted(a, b, 4, 8);
    assert 16 * a % 0x100 == 16 * a && b % 0x100 == b;
  }

  lemma SixteenBits()
    ensures Pow2(4) == 16
  {
  }

  /** What `debugserver_decode_string` makes of a text of even length. */
  function Unhex(h: seq<byte>): (s: seq<byte>)
    requires |h| % 2 == 0
    ensures 2 * |s| == |h|
    decreases |h|
  {
    if h == [] then [] else Unhex(h[..|h| - 2]) + [Nibbles(HexToInt(h[|h| - 2]), HexToInt(h[|h| - 1]))]
  }

  lemma {:induction false} UnhexHex(s: seq<byte>)
    ensures Unhex(Hex(s)) == s
    decreases |s|
  {
    hide HexToInt, HexPair, Nibbles;
    if s != [] {
      UnhexHex(s[..|s| - 1]);
      PairBack(s[|s| - 1]);
      var h := Hex(s);
      assert h[..|h| - 2] == Hex(s[..|s| - 1]) && h[|h| - 2..] == HexPair(s[|s| - 1]);
      assert h[|h| - 2] == HexPair(s[|s| - 1])[0] && h[|h| - 1] == HexPair(s[|s| - 1])[1];
      assert s == s[..|s| - 1] + [s[|s| - 1]];
    }
  }

  lemma PairBack(v: byte)
    ensures Nibbles(HexToInt(HexPair(v)[0]), HexToInt(HexPair(v)[1])) == v
  {
    hide HexToInt, HexPair, Nibbles;
    NibblesOfDigits(HighDigit(v), LowDigit(v));
    assert 16 * HighDigit(v) + LowDigit(v) == v;
  }

  lemma {:induction false} HexIsPlain(s: seq<byte>)
    ensures forall i | 0 <= i < |Hex(s)| :: Hex(s)[i] != 0 && Hex(s)[i] != HASH
    decreases |s|
  {
    if s != [] {
      HexIsPlain(s[..|s| - 1]);
    }
  }

  /** `debugserver_encode_string` */
  method EncodeString(buffer: CString) returns (encoded: seq<byte>)
    ensures encoded == Hex(buffer)
  {
    encoded := [];
    var index := 0;
    while index < |buffer|
      invariant index <= |buffer| && encoded == Hex(buffer[..index])
    {
      assert buffer[..index + 1][..index] == buffer[..index];
      var c: int := buffer[index];
      encoded := encoded + [IntToHex(HighDigit(c)), IntToHex(LowDigit(c))];
      index := index + 1;
    }
    assert buffer[..index] == buffer;
  }

  /** `debugserver_decode_string`, for whole pairs of digits */
  method DecodeString(encoded: seq<byte>) returns (buffer: seq<byte>)
    requires |encoded| % 2 == 0
    ensures buffer == Unhex(encoded)
  {
    hide HexToInt, Nibbles;
    buffer := [];
    var f := 0;
    while f < |encoded|
      invariant f <= |encoded| && f % 2 == 0 && buffer == Unhex(encoded[..f])
    {
      assert encoded[..f + 2][..f] == encoded[..f];
      buffer := buffer + [Nibbles(HexToInt(encoded[f]), HexToInt(encoded[f + 1]))];
      f := f + 2;
    }
    assert encoded[..f] == encoded;
  }

  // ----- checksums

  /** The sum that `debugserver_get_checksum_for_buffer` forms in 32 bits, adding characters that may be negative. */
  function Sum(s: seq<byte>): (sum: u32)
    decreases |s|
  {
    if s == [] then 0 else Low32(Sum(s[..|s| - 1]) + Signed(s[|s| - 1]))
  }

  method GetChecksum(buffer: seq<byte>) returns (checksum: u32)
    ensures checksum == Sum(buffer)
  {
    checksum := 0;
    var i := 0;
    while i < |buffer|
      invariant i <= |buffer| && checksum == Sum(buffer[..i])
    {
      assert buffer[..i + 1][..i] == buffer[..i];
      checksum := Low32(checksum + Signed(buffer[i]));
      i := i + 1;
    }
    assert buffer[..i] == buffer;
  }

  /** All that is used of the sum is its last byte. */
  function Plain(s: seq<byte>): (sum: nat)
    decreases |s|
  {
    if s == [] then 0 else Plain(s[..|s| - 1]) + s[|s| - 1]
  }

  lemma {:induction false} SumIsPlain(s: seq<byte>)
    ensures Sum(s) % 0x100 == Plain(s) % 0x100
    decreases |s|
  {
    if s != [] {
      SumIsPlain(s[..|s| - 1]);
      ModOfSum(Sum(s[..|s| - 1]), Plain(s[..|s| - 1]), s[|s| - 1]);
    }
  }

  lemma ModOfSum(a: int, b: int, c: byte)
    requires a % 0x100 == b % 0x100
    ensures Low32(a + Signed(c)) % 0x100 == (b + c) % 0x100
  {
    hide Low32;
    LowByte(a + Signed(c));
    assert (a + Signed(c)) % 0x100 == (a + c) % 0x100;
    assert (a + c) % 0x100 == (b + c) % 0x100;
  }

  lemma LowByte(v: int)
    ensures Low32(v) % 0x100 == v % 0x100
  {
  }

  /** A sum's two digits. */
  function SumDigits(sum: u32): (s: seq<byte>)
    ensures |s| == 2 && s[0] != 0 && s[1] != 0 && s[0] != HASH && s[1] != HASH
    ensures HexToInt(s[0]) == HighDigit(sum) && HexToInt(s[1]) == LowDigit(sum)
  {
    HexPair(sum)
  }

  lemma {:induction false} PlainJoin(a: seq<byte>, b: seq<byte>)
    ensures Plain(a + b) == Plain(a) + Plain(b)
    decreases |b|
  {
    if b == [] {
      assert a + b == a;
    } else {
      assert (a + b)[..|a + b| - 1] == a + b[..|b| - 1];
      PlainJoin(a, b[..|b| - 1]);
    }
  }

  /** Two digits are all of a sum's last byte. */
  lemma DigitsTell(x: nat, y: nat)
    ensures HighDigit(x) == HighDigit(y) && LowDigit(x) == LowDigit(y) <==> x % 0x100 == y % 0x100
  {
    LastByte(x);
    LastByte(y);
  }

  lemma LastByte(x: nat)
    ensures x % 0x100 == 16 * HighDigit(x) + LowDigit(x)
  {
  }

  lemma OneTermShows(a: nat, x: byte, y: byte, b: nat)
    requires x != y
    ensures (a + x + b) % 0x100 != (a + y + b) % 0x100
  {
  }

  /** Two texts that differ in one character have sums whose digits differ. */
  lemma OneCharacterShows(s: seq<byte>, k: nat, c: byte)
    requires k < |s| && c != s[k]
    ensures HighDigit(Sum(s)) != HighDigit(Sum(s[k := c])) || LowDigit(Sum(s)) != LowDigit(Sum(s[k := c]))
  {
    var a, b := s[..k], s[k + 1..];
    assert s == a + [s[k]] + b && s[k := c] == a + [c] + b;
    PlainAround(a, s[k], b);
    PlainAround(a, c, b);
    hide Sum, Plain;
    SumIsPlain(s);
    SumIsPlain(s[k := c]);
    OneTermShows(Plain(a), s[k], c, Plain(b));
    DigitsTell(Sum(s), Sum(s[k := c]));
  }

  lemma PlainAround(a: seq<byte>, c: byte, b: seq<byte>)
    ensures Plain(a + [c] + b) == Plain(a) + c + Plain(b)
  {
    PlainJoin(a, [c]);
    PlainJoin(a + [c], b);
    assert [c][..0] == [];
  }

  // ----- packets

  /** A packet's payload: the command, and its arguments in hexadecimal. */
  function Payload(command: CString, arguments: Option<CString>): seq<byte> {
    command + if arguments.Some? then Hex(arguments.value) else []
  }

  /** A payload between the prefix and its checksum. */
  function Framed(payload: seq<byte>): seq<byte> {
    [DOLLAR] + payload + [HASH] + SumDigits(Sum(payload))
  }

  /** `debugserver_format_command`; without a checksum its digits are zeros. */
  method FormatCommand(prefix: CString, command: CString, arguments: Option<CString>, calculateChecksum: bool)
    returns (buffer: seq<byte>, size: nat)
    ensures size == |buffer|
    ensures calculateChecksum ==>
      var payload := Payload(command, arguments); buffer == prefix + payload + [HASH] + SumDigits(Sum(payload))
    ensures !calculateChecksum ==> buffer == prefix + Payload(command, arguments) + [HASH, 48, 48]
  {
    var first: byte, second: byte := 48, 48;
    var encoded := [];
    if arguments.Some? {
      encoded := EncodeString(arguments.value);
    }
    var encodedCommand := command + encoded;
    if calculateChecksum {
      var checksum := GetChecksum(encodedCommand);
      first, second := IntToHex(HighDigit(checksum)), IntToHex(LowDigit(checksum));
    }
    buffer := prefix + encodedCommand + [HASH, first, second];
    size := |prefix| + |encodedCommand| + 3;
  }

  // ----- receiving

  /** What the connection brings for each byte that is asked for; nothing is a timeout or an error. */
  type Input = seq<Option<byte>>

  /** How a call of `debugserver_client_receive_response` ends: with a result, with a look behind the end of the
      characters it kept, or not yet. */
  datatype Reply =
    | Reply(valid: bool, response: Option<seq<byte>>, sent: seq<byte>, used: nat)
    | Overread
    | Waiting

  /** What is left in the character's place: what came, or NUL. */
  function Came(x: Option<byte>): byte {
    if x.Some? then x.value else 0
  }

  /** The characters that string concatenation keeps. */
  function Kept(input: Input): (s: seq<byte>)
    ensures |s| <= |input|
    decreases |input|
  {
    if input == [] then []
    else Kept(input[..|input| - 1]) + if Came(input[|input| - 1]) == 0 then [] else [Came(input[|input| - 1])]
  }

  /** The place of the first `#`, or the end. */
  function FirstHash(input: Input): (h: nat)
    ensures h <= |input|
    ensures h < |input| ==> input[h] == Some(HASH)
    ensures forall i | 0 <= i < h :: input[i] != Some(HASH)
  {
    if input == [] || input[0] == Some(HASH) then 0 else 1 + FirstHash(input[1..])
  }

  function CharAt(s: seq<byte>, i: nat): byte {
    if i < |s| then s[i] else 0
  }

  /** `debugserver_response_is_checksum_valid` */
  predicate ChecksumValid(buffer: seq<byte>, size: nat)
    requires 4 <= size <= |buffer| + 1
  {
    var sum := Sum(buffer[1..size - 3]);
    HexToInt(CharAt(buffer, size - 2)) == HighDigit(sum) && HexToInt(CharAt(buffer, size - 1)) == LowDigit(sum)
  }

  /** The result once the prefix was received: the packet ends two bytes after its first `#`. */
  function AfterPrefix(input: Input, used: nat, noack: bool): Reply {
    var h := FirstHash(input);
    if h + 3 > |input| then Waiting
    else
      var buffer := [DOLLAR] + Kept(input[..h + 3]);
      var size := h + 4;
      if size > |buffer| + 1 then Overread
      else if ChecksumValid(buffer, size) then
        Reply(true, Some(buffer[1..size - 3]), if noack then [] else [PLUS], used + h + 3)
      else Reply(false, None, if noack then [] else [MINUS], used + h + 3)
  }

  /** `debugserver_client_receive_response`: in ack mode a `+` comes first, or else the prefix. */
  function Receive(input: Input, noack: bool): Reply {
    if input == [] then Waiting
    else if Came(input[0]) == DOLLAR then AfterPrefix(input[1..], 1, noack)
    else if noack || Came(input[0]) != PLUS then Reply(true, None, [], 1)
    else if |input| == 1 then Waiting
    else if Came(input[1]) == DOLLAR then AfterPrefix(input[2..], 2, noack)
    else Reply(true, None, [], 2)
  }

  class Client {
    var noackMode: bool
    /** Bytes to come, and how many were taken. */
    var input: Input
    var taken: nat
    var sent: seq<byte>

    ghost predicate Valid()
      reads this
    {
      taken <= |input|
    }

    constructor (input: Input)
      ensures Valid() && taken == 0 && this.input == input && !noackMode && sent == []
    {
      noackMode, this.input, taken, sent := false, input, 0, [];
    }

    /** `debugserver_client_receive_internal_check`: whether the expected character came; else what came instead */
    method ReceiveInternalCheck(expected: byte) returns (did: bool, c: byte)
      requires taken < |input|
      modifies this`taken
      ensures taken == old(taken) + 1
      ensures c == Came(input[old(taken)]) && did == (c == expected && c != 0)
    {
      did := input[taken].Some? && expected != 0 && input[taken].value == expected;
      c := Came(input[taken]);
      taken := taken + 1;
    }

    method IsChecksumValid(response: seq<byte>, size: nat) returns (valid: bool)
      requires 4 <= size <= |response| + 1
      ensures valid == ChecksumValid(response, size)
    {
      var checksum := 0;
      if size - 4 > 0 {
        checksum := GetChecksum(response[1..size - 3]);
      } else {
        assert response[1..size - 3] == [];
      }
      if HexToInt(CharAt(response, size - 2)) != HighDigit(checksum) {
        return false;
      }
      if HexToInt(CharAt(response, size - 1)) != LowDigit(checksum) {
        return false;
      }
      valid := true;
    }

    /** The loop of `debugserver_client_receive_response` that reads up to the checksum. */
    method ReadFrame() returns (buffer: seq<byte>, size: nat)
      requires Valid() && FirstHash(input[taken..]) + 3 <= |input| - taken
      modifies this`taken
      ensures var was := old(input[taken..]); var h := FirstHash(was);
        buffer == [DOLLAR] + Kept(was[..h + 3]) && size == h + 4 && taken == old(taken) + h + 3
    {
      ghost var was := input[taken..];
      ghost var h := FirstHash(was);
      ghost var n := 0;
      buffer, size := [DOLLAR], 1;
      var checksumLength := 3;
      var receiving := false;
      while checksumLength > 0
        invariant 0 <= checksumLength <= 3 && n + checksumLength == (if receiving then h else n) + 3
        invariant receiving <==> n > h
        invariant n <= h + 3 && size == 1 + n && taken == old(taken) + n
        invariant buffer == [DOLLAR] + Kept(was[..n])
        decreases h + 3 - n
      {
        assert was[n] == input[taken];
        assert was[..n + 1][..n] == was[..n];
        var did, c := ReceiveInternalCheck(HASH);
        if did {
          receiving := true;
        }
        if receiving {
          checksumLength := checksumLength - 1;
        }
        buffer := buffer + if c == 0 then [] else [c];
        size := size + 1;
        n := n + 1;
      }
    }

    /** `debugserver_client_receive_response`, when it comes to an end */
    method ReceiveResponse() returns (valid: bool, response: Option<seq<byte>>)
      requires Valid() && Receive(input[taken..], noackMode).Reply?
      modifies this`taken, this`sent
      ensures Valid() && taken >= old(taken) && |sent| >= |old(sent)| && sent[..|old(sent)|] == old(sent)
      ensures Reply(valid, response, sent[|old(sent)|..], taken - old(taken)) == Receive(old(input[taken..]), noackMode)
    {
      hide FirstHash, Kept, ChecksumValid;
      ghost var was := input[taken..];
      var shouldReceive, skipPrefix := true, false;
      response := None;
      valid := true;
      if !noackMode {
        var ack;
        shouldReceive, ack := ReceiveInternalCheck(PLUS);
        if ack == DOLLAR {
          shouldReceive, skipPrefix := true, true;
        }
      }
      if shouldReceive && !skipPrefix {
        var prefix;
        shouldReceive, prefix := ReceiveInternalCheck(DOLLAR);
      }
      if shouldReceive {
        assert input[taken..] == was[taken - old(taken)..];
        var buffer, size := ReadFrame();
        valid := IsChecksumValid(buffer, size);
        if valid {
          response := Some(buffer[1..size - 3]);
          if !noackMode {
            sent := sent + [PLUS];
          }
        } else if !noackMode {
          sent := sent + [MINUS];
        }
      }
    }

    method ConcatArguments(argv: seq<CString>) returns (arguments: Option<CString>)
      ensures arguments == if argv == [] then None else Some(Concat(argv))
    {
      arguments := None;
      var i := 0;
      while i < |argv|
        invariant i <= |argv| && arguments == if i == 0 then None else Some(Concat(argv[..i]))
      {
        assert argv[..i + 1][..i] == argv[..i];
        if arguments.None? {
          assert Concat(argv[..1]) == [] + argv[0] == argv[0];
          arguments := Some(argv[i]);
        } else {
          arguments := Some(arguments.value + argv[i]);
        }
        i := i + 1;
      }
      assert argv[..i] == argv;
    }

    /** `debugserver_client_send_command`: the command goes out, with a checksum in ack mode; a good answer to the
        command that turns ack mode off turns it off here too. */
    method SendCommand(name: CString, argv: seq<CString>) returns (valid: bool, response: Option<seq<byte>>)
      requires Valid() && Receive(input[taken..], noackMode).Reply?
      modifies this
      ensures Valid() && input == old(input) && taken >= old(taken)
      ensures var packet := Packet(name, argv, old(noackMode));
        var answer := Receive(old(input[taken..]), old(noackMode));
        answer == Reply(valid, response, answer.sent, taken - old(taken)) && sent == old(sent) + packet + answer.sent
      ensures noackMode == (old(noackMode) || (valid && name == Q_START_NO_ACK_MODE))
    {
      hide Receive, Payload, SumDigits, Sum, Concat;
      var arguments := ConcatArguments(argv);
      var buffer, size := FormatCommand([DOLLAR], name, arguments, !noackMode);
      sent := sent + buffer;
      ghost var out := sent;
      valid, response := ReceiveResponse();
      assert sent == out + sent[|out|..];
      if valid && name == Q_START_NO_ACK_MODE {
        noackMode := true;
      }
    }
  }

  /** "QStartNoAckMode"; the comparison of 16 characters includes the terminator. */
  const Q_START_NO_ACK_MODE: CString := [81, 83, 116, 97, 114, 116, 78, 111, 65, 99, 107, 77, 111, 100, 101]

  lemma NoAckName()
    ensures var name := "QStartNoAckMode";
      |Q_START_NO_ACK_MODE| == |name| && forall i | 0 <= i < |name| :: Q_START_NO_ACK_MODE[i] == name[i] as int
  {
  }

  function Concat(argv: seq<CString>): CString
    decreases |argv|
  {
    if argv == [] then [] else Concat(argv[..|argv| - 1]) + argv[|argv| - 1]
  }

  function Packet(name: CString, argv: seq<CString>, noack: bool): seq<byte> {
    var payload := Payload(name, if argv == [] then None else Some(Concat(argv)));
    if noack then [DOLLAR] + payload + [HASH, 48, 48] else Framed(payload)
  }

  // ----- what is sent is what is received

  /** A connection that brings these bytes without a timeout. */
  function Arriving(s: seq<byte>): (input: Input)
    ensures |input| == |s| && forall i | 0 <= i < |s| :: input[i] == Some(s[i])
  {
    seq(|s|, i requires 0 <= i < |s| => Some(s[i]))
  }

  /** A text that can be the inside of a packet. */
  predicate Inside(s: seq<byte>) {
    forall i | 0 <= i < |s| :: s[i] != 0 && s[i] != HASH
  }

  lemma {:induction false} KeptAll(s: seq<byte>, rest: Input)
    requires forall i | 0 <= i < |s| :: s[i] != 0
    ensures (Arriving(s) + rest)[..|s|] == Arriving(s) && Kept(Arriving(s)) == s
    decreases |s|
  {
    if s != [] {
      var n := |s| - 1;
      assert Arriving(s)[..n] == Arriving(s[..n]);
      KeptAll(s[..n], []);
      assert s == s[..n] + [s[n]];
    }
  }

  lemma {:induction false} HashFound(input: Input, h: nat)
    requires h < |input| && input[h] == Some(HASH) && forall i | 0 <= i < h :: input[i] != Some(HASH)
    ensures FirstHash(input) == h
  {
    if h > 0 {
      HashFound(input[1..], h - 1);
    }
  }

  /** Whatever follows, a packet is accepted when its two digits are those of its payload's sum, and refused if not. */
  lemma PacketReceived(payload: seq<byte>, a: byte, b: byte, rest: Input, used: nat, noack: bool)
    requires Inside(payload) && a != 0 && b != 0
    ensures AfterPrefix(Arriving(payload + [HASH, a, b]) + rest, used, noack) ==
      var sum := Sum(payload);
      if HexToInt(a) == HighDigit(sum) && HexToInt(b) == LowDigit(sum)
      then Reply(true, Some(payload), if noack then [] else [PLUS], used + |payload| + 3)
      else Reply(false, None, if noack then [] else [MINUS], used + |payload| + 3)
  {
    hide HexToInt, HighDigit, LowDigit, Sum, FirstHash, Kept, Arriving, ChecksumValid;
    FrameFound(payload, a, b, rest);
    ChecksumOfFrame(payload, a, b);
    Middle(DOLLAR, payload, [HASH, a, b]);
  }

  lemma FrameFound(payload: seq<byte>, a: byte, b: byte, rest: Input)
    requires Inside(payload) && a != 0 && b != 0
    ensures var input := Arriving(payload + [HASH, a, b]) + rest;
      && FirstHash(input) == |payload| && |payload| + 3 <= |input|
      && Kept(input[..|payload| + 3]) == payload + [HASH, a, b]
  {
    var frame := payload + [HASH, a, b];
    hide Kept, FirstHash;
    HashFound(Arriving(frame) + rest, |payload|);
    KeptAll(frame, rest);
  }

  lemma ChecksumOfFrame(payload: seq<byte>, a: byte, b: byte)
    ensures var sum := Sum(payload);
      ChecksumValid([DOLLAR] + (payload + [HASH, a, b]), |payload| + 4)
      == (HexToInt(a) == HighDigit(sum) && HexToInt(b) == LowDigit(sum))
  {
    hide HexToInt, HighDigit, LowDigit, Sum;
    Middle(DOLLAR, payload, [HASH, a, b]);
  }

  lemma Middle<T>(first: T, s: seq<T>, tail: seq<T>)
    ensures var all := [first] + (s + tail);
      all[1..|s| + 1] == s && forall i | 0 <= i < |tail| :: all[|s| + 1 + i] == tail[i]
  {
  }

  /** The way there and back: `+` may come first in ack mode; the answer is `+` then. */
  lemma RoundTrip(command: CString, arguments: Option<CString>, plus: bool, rest: Input, noack: bool)
    requires HASH !in command && (plus ==> !noack)
    ensures var payload := Payload(command, arguments); var lead := if plus then [PLUS] else [];
      Receive(Arriving(lead + Framed(payload)) + rest, noack)
        == Reply(true, Some(payload), if noack then [] else [PLUS], |lead| + |payload| + 4)
  {
    var payload := Payload(command, arguments);
    var lead := if plus then [PLUS] else [];
    hide AfterPrefix, HexToInt, HighDigit, LowDigit, Sum, Payload, Inside, SumDigits, Framed, Arriving;
    PayloadInside(command, arguments);
    var d := SumDigits(Sum(payload));
    PacketReceived(payload, d[0], d[1], rest, |lead| + 1, noack);
    Unwrapped(lead, payload, rest);
  }

  lemma PayloadInside(command: CString, arguments: Option<CString>)
    requires HASH !in command
    ensures Inside(Payload(command, arguments))
  {
    hide Hex;
    if arguments.Some? {
      HexIsPlain(arguments.value);
    }
    assert forall i | 0 <= i < |command| :: command[i] in command;
  }

  lemma Unwrapped(lead: seq<byte>, payload: seq<byte>, rest: Input)
    ensures var d := SumDigits(Sum(payload)); var input := Arriving(lead + Framed(payload)) + rest;
      && |input| > |lead| && input[|lead|] == Some(DOLLAR) && (forall i | 0 <= i < |lead| :: input[i] == Some(lead[i]))
      && input[|lead| + 1..] == Arriving(payload + [HASH, d[0], d[1]]) + rest
  {
    hide HexToInt, HighDigit, LowDigit, Sum, SumDigits;
    var d := SumDigits(Sum(payload));
    assert lead + Framed(payload) == lead + [DOLLAR] + (payload + [HASH, d[0], d[1]]);
  }

  /** With a `#` in the command what comes back is not what was sent. */
  lemma RoundTripIff(command: CString, arguments: Option<CString>, noack: bool)
    ensures var payload := Payload(command, arguments); var reply := Receive(Arriving(Framed(payload)), noack);
      HASH !in command <==> reply.Reply? && reply.response == Some(payload)
  {
    var payload := Payload(command, arguments);
    var input := Arriving(Framed(payload));
    if HASH !in command {
      RoundTrip(command, arguments, false, [], noack);
      assert Arriving([] + Framed(payload)) + [] == input;
    } else {
      var k :| 0 <= k < |command| && command[k] == HASH;
      assert payload[k] == HASH && input[1..][k] == Some(HASH);
      hide FirstHash, Kept, ChecksumValid, Framed;
      var h := FirstHash(input[1..]);
      assert h <= k < |payload|;
      var reply := AfterPrefix(input[1..], 1, noack);
      assert reply.Reply? && reply.response.Some? ==> |reply.response.value| == h;
    }
  }

  /** What follows the command in a payload decodes to the arguments. */
  lemma ArgumentsBack(command: CString, arguments: CString)
    ensures var h := Payload(command, Some(arguments))[|command|..];
      |h| % 2 == 0 && Unhex(h) == arguments
  {
    hide Unhex, Hex;
    UnhexHex(arguments);
    assert Payload(command, Some(arguments))[|command|..] == Hex(arguments);
  }

  lemma StillInside(s: seq<byte>, k: nat, c: byte)
    requires Inside(s) && k < |s| && c != 0 && c != HASH
    ensures Inside(s[k := c])
  {
  }

  /** A packet one of whose characters was changed on the way is refused. */
  lemma ChangeRefused(payload: seq<byte>, k: nat, c: byte, a: byte, b: byte, rest: Input, used: nat, noack: bool)
    requires Inside(payload) && k < |payload| && c != payload[k] && c != 0 && c != HASH && a != 0 && b != 0
    requires HexToInt(a) == HighDigit(Sum(payload)) && HexToInt(b) == LowDigit(Sum(payload))
    ensures AfterPrefix(Arriving(payload[k := c] + [HASH, a, b]) + rest, used, noack)
      == Reply(false, None, if noack then [] else [MINUS], used + |payload| + 3)
  {
    hide AfterPrefix, HexToInt, HighDigit, LowDigit, Sum, Arriving, Inside;
    OneCharacterShows(payload, k, c);
    StillInside(payload, k, c);
    PacketReceived(payload[k := c], a, b, rest, used, noack);
  }

  /** The command "#": its packet ends after two of the three bytes that should be behind it. */
  lemma HashIsLost(noack: bool)
    ensures var reply := Receive(Arriving(Framed(Payload([HASH], None))), noack);
      !(reply.Reply? && reply.response == Some([HASH]))
  {
    hide Receive, Framed, Arriving;
    RoundTripIff([HASH], None, noack);
    assert Payload([HASH], None) == [HASH];
  }

  // ----- known packets

  function Digit(v: nat, lower: bool): (c: byte)
    requires v < 16
  {
    if v < 10 then 48 + v else if lower then 87 + v else 55 + v
  }

  /** The digits, of either case; anything else stands for itself, as a signed character. */
  lemma Digits(v: nat, lower: bool, c: byte)
    requires v < 16
    ensures HexToInt(Digit(v, lower)) == v && Digit(v, lower) != 0
    ensures c < 48 || 57 < c < 65 || 70 < c < 97 || 102 < c ==> HexToInt(c) == if c < 128 then c else c - 256
  {
  }

  /** A checksum of the plain sum of the payload is accepted in digits of either case. */
  lemma EitherCaseAccepted(payload: seq<byte>, lower: bool, rest: Input, used: nat, noack: bool)
    requires Inside(payload)
    ensures var sum := Plain(payload);
      AfterPrefix(Arriving(payload + [35, Digit(sum / 16 % 16, lower), Digit(sum % 16, lower)]) + rest, used, noack)
        == Reply(true, Some(payload), if noack then [] else [43], used + |payload| + 3)
  {
    hide Inside, AfterPrefix, Sum, Plain, HexToInt, HighDigit, LowDigit, Arriving, Digit;
    var sum := Plain(payload);
    Digits(sum / 16 % 16, lower, 0);
    Digits(sum % 16, lower, 0);
    SumIsPlain(payload);
    DigitsTell(Sum(payload), sum);
    PlainDigits(sum);
    PacketReceived(payload, Digit(sum / 16 % 16, lower), Digit(sum % 16, lower), rest, used, noack);
  }

  lemma PlainDigits(v: nat)
    ensures HighDigit(v) == v / 16 % 16 && LowDigit(v) == v % 16
  {
  }

  /** "$OK#9a" and "+$OK#9A" bring "OK", "$OK#9B" is refused, and what does not start like this is no packet. */
  lemma KnownReplies()
    ensures Receive(Arriving([36, 79, 75, 35, 57, 97]), false) == Reply(true, Some([79, 75]), [43], 6)
    ensures Receive(Arriving([43, 36, 79, 75, 35, 57, 65]), false) == Reply(true, Some([79, 75]), [43], 7)
    ensures Receive(Arriving([36, 79, 75, 35, 57, 97]), true) == Reply(true, Some([79, 75]), [], 6)
    ensures Receive(Arriving([36, 79, 75, 35, 57, 66]), false) == Reply(false, None, [45], 6)
    ensures Receive(Arriving([43, 36, 79]), true) == Reply(true, None, [], 1)
    ensures Receive(Arriving([43, 79, 75]), false) == Reply(true, None, [], 2)
    ensures Receive([None], false) == Reply(true, None, [], 1)
  {
    hide AfterPrefix, Sum, HexToInt, HighDigit, LowDigit, Arriving;
    KnownSum();
    Digits(9, true, 0);
    Digits(10, true, 0);
    Digits(10, false, 0);
    Digits(11, false, 0);
    PacketReceived([79, 75], 57, 97, [], 1, false);
    PacketReceived([79, 75], 57, 65, [], 2, false);
    PacketReceived([79, 75], 57, 97, [], 1, true);
    PacketReceived([79, 75], 57, 66, [], 1, false);
    assert Arriving([36, 79, 75, 35, 57, 97])[1..] == Arriving([79, 75, 35, 57, 97]) + [];
    assert Arriving([43, 36, 79, 75, 35, 57, 65])[2..] == Arriving([79, 75, 35, 57, 65]) + [];
    assert Arriving([36, 79, 75, 35, 57, 66])[1..] == Arriving([79, 75, 35, 57, 66]) + [];
    assert [79, 75] + [HASH, 57, 97] == [79, 75, 35, 57, 97] && [79, 75] + [HASH, 57, 65] == [79, 75, 35, 57, 65];
    assert [79, 75] + [HASH, 57, 66] == [79, 75, 35, 57, 66];
  }

  /** One byte of the checksum that does not come is taken for NUL, and the packet is refused; if none of the two comes,
      the check looks behind the end of what was kept. */
  lemma KnownGaps()
    ensures Receive([Some(36), Some(79), Some(35), Some(52), None], false) == Reply(false, None, [45], 5)
    ensures Receive([Some(36), Some(79), Some(35), None, None], false) == Overread
    ensures Receive([Some(36), Some(79), Some(35), Some(52)], false) == Waiting
  {
    hide Kept, FirstHash, Sum, HighDigit, LowDigit;
    KnownGap([Some(79), Some(35), Some(52), None], [79, 35, 52]);
    KnownGap([Some(79), Some(35), None, None], [79, 35]);
    HashFound([Some(79), Some(35), Some(52)], 1);
    SmallSum();
    assert [DOLLAR] + [79, 35, 52] == [36, 79, 35, 52] && [36, 79, 35, 52][1..2] == [79];
    Digits(4, false, 0);
  }

  lemma SmallSum()
    ensures LowDigit(Sum([79])) == 15
  {
    assert [79][..0] == [];
  }

  lemma KnownGap(input: Input, kept: seq<byte>)
    requires
      || (input == [Some(79), Some(35), Some(52), None] && kept == [79, 35, 52])
      || (input == [Some(79), Some(35), None, None] && kept == [79, 35])
    ensures FirstHash(input) == 1 && input[..4] == input && Kept(input) == kept
  {
    HashFound(input, 1);
    assert input[..3][..2] == input[..2] && input[..2][..1] == input[..1] && input[..1][..0] == [];
    assert Kept(input[..2]) == [79, 35];
  }

  lemma KnownSum()
    ensures HighDigit(Sum([79, 75])) == 9 && LowDigit(Sum([79, 75])) == 10
  {
    assert [79, 75][..1] == [79] && [79][..0] == [];
    assert Sum([79, 75]) == 0x9A;
  }

  /** The command "A" with the arguments 0x4A and 0xFF is sent as "$A4AFF#42", or with zeros in no-ack mode. */
  lemma KnownPacket()
    ensures Packet([65], [[74], [255]], false) == [36, 65, 52, 65, 70, 70, 35, 52, 50]
    ensures Packet([65], [[74], [255]], true) == [36, 65, 52, 65, 70, 70, 35, 48, 48]
    ensures Packet([65], [], true) == [36, 65, 35, 48, 48]
  {
    hide Sum, Hex, Concat;
    var p: seq<byte> := [65, 52, 65, 70, 70];
    KnownArguments();
    assert [65] + [52, 65, 70, 70] == p && [65] + [] == [65];
    KnownPayload();
  }

  lemma KnownArguments()
    ensures Concat([[74], [255]]) == [74, 255] && Hex([74, 255]) == [52, 65, 70, 70]
  {
    KnownText();
    KnownHex();
  }

  lemma KnownText()
    ensures Concat([[74], [255]]) == [74, 255]
  {
    var first: CString, second: CString := [74], [255];
    assert [first, second][..1] == [first] && [first][..0] == [];
    assert Concat([first]) == first;
  }

  /** "4a", "4A" and "FF" decode to their bytes; characters that are no digits are taken for what they are. */
  lemma KnownDecoding()
    ensures Unhex([52, 97]) == Unhex([52, 65]) == [0x4A] && Unhex([70, 70]) == [0xFF] && Unhex([122, 49]) == [0xA1]
  {
    hide Nibbles;
    NibblesOfDigits(4, 10);
    NibblesOfDigits(15, 15);
    NoDigits();
  }

  lemma NoDigits()
    ensures Nibbles(122, 1) == 0xA1
  {
    hide OrBits, Pow2;
    SixteenBits();
    OrShifted(10, 1, 4, 8);
  }

  lemma KnownHex()
    ensures Hex([74, 255]) == [52, 65, 70, 70]
  {
    hide HighDigit, LowDigit;
    PlainDigits(74);
    PlainDigits(255);
    assert [74, 255][..1] == [74] && [74][..0] == [];
    assert Hex([74]) == HexPair(74) == [52, 65];
    assert HexPair(255) == [70, 70];
  }

  lemma KnownPayload()
    ensures SumDigits(Sum([65, 52, 65, 70, 70])) == [52, 50]
  {
    var p: seq<byte> := [65, 52, 65, 70, 70];
    assert p[..4] == [65, 52, 65, 70] && p[..4][..3] == [65, 52, 65] && [65, 52, 65][..2] == [65, 52];
    assert [65, 52][..1] == [65] && [65][..0] == [];
    assert Sum([65]) == 65;
    assert Sum([65, 52]) == 117;
    assert Sum([65, 52, 65]) == 182;
    assert Sum([65, 52, 65, 70]) == 252;
    assert Sum(p) == 322;
  }
}
