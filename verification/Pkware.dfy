/** Traditional PKWARE encryption (section 6.1 of APPNOTE.TXT). */
module Pkware {
  import opened Bytes
  import opened Words

  datatype Keys = Keys(k0: bv32, k1: bv32, k2: bv32)

  const INITIAL := Keys(305419896, 591751049, 878082192)
  const HEADERLEN := 12

  datatype Error = WrongPassword | EndOfFile | LowerError

  /** zlib's table of 256 words, by index. */
  type Table = bv8 -> bv32

  /** `CRC32(c, b)` */
  function CrcStep(t: Table, c: bv32, b: bv8): bv32 {
    t(((c ^ (b as bv32)) & 0xff) as bv8) ^ (c >> 8)
  }

  /** The second key, from the old one and the new first key. */
  function SecondKey(k1: bv32, k0: bv32): bv32 {
    (k1 + (k0 & 0xff)) * 134775813 + 1
  }

  /** The keys after one byte of clear text. */
  function Update(t: Table, k: Keys, b: bv8): Keys {
    var k0 := CrcStep(t, k.k0, b);
    var k1 := SecondKey(k.k1, k0);
    Keys(k0, k1, CrcStep(t, k.k2, (k1 >> 24) as bv8))
  }

  /** The byte the keys put over the next byte of text. */
  function StreamByte(k: Keys): bv8 {
    Scrambled((k.k2 | 2) & 0xffff)
  }

  function Scrambled(tmp: bv32): bv8 {
    (((tmp * (tmp ^ 1)) >> 8) & 0xff) as bv8
  }

  /** One byte of text under one byte of the stream, in either direction. */
  function Masked(b: bv8, s: bv8): bv8 {
    b ^ s
  }

  // ----- both directions

  function UpdateAll(t: Table, k: Keys, clear: seq<bv8>): Keys
    decreases |clear|
  {
    if clear == [] then k else UpdateAll(t, Update(t, k, clear[0]), clear[1..])
  }

  function Encrypt(t: Table, k: Keys, clear: seq<bv8>): (cipher: seq<bv8>)
    ensures |cipher| == |clear|
    decreases |clear|
  {
    if clear == [] then [] else [Masked(clear[0], StreamByte(k))] + Encrypt(t, Update(t, k, clear[0]), clear[1..])
  }

  /** The clear text of a cipher text. */
  function Decrypt(t: Table, k: Keys, cipher: seq<bv8>): (clear: seq<bv8>)
    ensures |clear| == |cipher|
    decreases |cipher|
  {
    if cipher == [] then []
    else
      var b := Masked(cipher[0], StreamByte(k));
      [b] + Decrypt(t, Update(t, k, b), cipher[1..])
  }

  lemma First(t: Table, k: Keys, b: bv8, rest: seq<bv8>)
    ensures UpdateAll(t, k, [b] + rest) == UpdateAll(t, Update(t, k, b), rest)
    ensures Encrypt(t, k, [b] + rest) == [Masked(b, StreamByte(k))] + Encrypt(t, Update(t, k, b), rest)
    ensures var c := Masked(b, StreamByte(k)); Decrypt(t, k, [b] + rest) == [c] + Decrypt(t, Update(t, k, c), rest)
  {
    hide Masked, Update, StreamByte;
    assert ([b] + rest)[1..] == rest;
  }

  /** Decrypting undoes encrypting from the same keys. */
  lemma {:induction false} DecryptEncrypt(t: Table, k: Keys, clear: seq<bv8>)
    ensures Decrypt(t, k, Encrypt(t, k, clear)) == clear
    decreases |clear|
  {
    hide Masked, Update, StreamByte;
    if clear != [] {
      var b, rest := clear[0], clear[1..];
      assert clear == [b] + rest;
      First(t, k, b, rest);
      First(t, k, Masked(b, StreamByte(k)), Encrypt(t, Update(t, k, b), rest));
      DecryptEncrypt(t, Update(t, k, b), rest);
      hide *;
      XorTwice(b, StreamByte(k));
    }
  }

  /** ... and encrypting undoes decrypting, so the two are one-to-one. */
  lemma {:induction false} EncryptDecrypt(t: Table, k: Keys, cipher: seq<bv8>)
    ensures Encrypt(t, k, Decrypt(t, k, cipher)) == cipher
    decreases |cipher|
  {
    hide Masked, Update, StreamByte;
    if cipher != [] {
      var b, rest := cipher[0], cipher[1..];
      var c := Masked(b, StreamByte(k));
      assert cipher == [b] + rest;
      First(t, k, b, rest);
      First(t, k, c, Decrypt(t, Update(t, k, c), rest));
      EncryptDecrypt(t, Update(t, k, c), rest);
      hide *;
      XorTwice(b, StreamByte(k));
    }
  }

  lemma XorTwice(b: bv8, s: bv8)
    ensures Masked(Masked(b, s), s) == b
  {
  }

  lemma {:induction false} UpdateJoins(t: Table, k: Keys, a: seq<bv8>, b: seq<bv8>)
    ensures UpdateAll(t, k, a + b) == UpdateAll(t, UpdateAll(t, k, a), b)
    decreases |a|
  {
    hide Update;
    if a == [] {
      assert a + b == b;
    } else {
      assert (a + b)[1..] == a[1..] + b;
      UpdateJoins(t, Update(t, k, a[0]), a[1..], b);
    }
  }

  lemma UpdateNone(t: Table, k: Keys)
    ensures UpdateAll(t, k, []) == k
  {
  }

  lemma UpdateOne(t: Table, k: Keys, b: bv8)
    ensures UpdateAll(t, k, [b]) == Update(t, k, b)
  {
    hide Update;
  }

  /** Decrypting piece by piece is decrypting at once, if each piece starts with the keys the last one left. */
  lemma {:induction false} DecryptJoins(t: Table, k: Keys, a: seq<bv8>, b: seq<bv8>)
    ensures Decrypt(t, k, a + b) == Decrypt(t, k, a) + Decrypt(t, UpdateAll(t, k, Decrypt(t, k, a)), b)
    decreases |a|
  {
    hide Masked, Update, StreamByte;
    if a == [] {
      assert a + b == b;
    } else {
      var c := Masked(a[0], StreamByte(k));
      var next := Update(t, k, c);
      assert a == [a[0]] + a[1..] && a + b == [a[0]] + (a[1..] + b);
      First(t, k, a[0], a[1..]);
      First(t, k, a[0], a[1..] + b);
      DecryptJoins(t, next, a[1..], b);
      First(t, k, c, Decrypt(t, next, a[1..]));
      hide *;
      var x, y := Decrypt(t, next, a[1..]), Decrypt(t, UpdateAll(t, next, Decrypt(t, next, a[1..])), b);
      assert [c] + (x + y) == [c] + x + y;
    }
  }

  // ----- what the keys are in numbers

  /** A checksum step by the bytes of the word: the lowest, under the new byte, selects from the table, and the others
      move down. */
  lemma CrcStepBytes(t: Table, d: bv8, c: bv8, b: bv8, a: bv8, x: bv8)
    ensures CrcStep(t, Word(d, c, b, a), x) == t(a ^ x) ^ Word(0, d, c, b)
  {
    hide Word;
    IndexAndRest(d, c, b, a, x);
  }

  lemma IndexAndRest(d: bv8, c: bv8, b: bv8, a: bv8, x: bv8)
    ensures ((Word(d, c, b, a) ^ (x as bv32)) & 0xff) as bv8 == a ^ x && Word(d, c, b, a) >> 8 == Word(0, d, c, b)
  {
  }

  /** The keys after one byte, for all keys: the first by a checksum step, the second modulo 2^32 from the old second
      and the new first one, the third by a checksum step with the top byte of the new second one. */
  lemma KeyStep(t: Table, k: Keys, b: bv8)
    ensures var next := Update(t, k, b);
      && next.k0 == CrcStep(t, k.k0, b)
      && Int32(next.k1) == ((Int32(k.k1) + Int32(next.k0) % 0x100) * 134775813 + 1) % 0x1_0000_0000
      && exists top: bv8 :: Int8(top) == Int32(next.k1) / 0x100_0000 && next.k2 == CrcStep(t, k.k2, top)
  {
    hide CrcStep, Int8, Int32, SecondKey, Top;
    var next := Update(t, k, b);
    assert next.k1 == SecondKey(k.k1, next.k0);
    SecondKeyInt(k.k1, next.k0);
    BytesInt(next.k1);
    TopByte(next.k1);
    assert Int8(Top(next.k1)) == Int32(next.k1) / 0x100_0000;
  }

  lemma TopByte(x: bv32)
    ensures Top(x) == (x >> 24) as bv8
  {
  }

  lemma SecondKeyInt(k1: bv32, k0: bv32)
    ensures Int32(SecondKey(k1, k0)) == ((Int32(k1) + Int32(k0) % 0x100) * 134775813 + 1) % 0x1_0000_0000
  {
    hide *;
    var sum, product := SecondKeyParts(k1, k0);
    BytesInt(k0);
    SumInt(k1, Bottom(k0), sum);
    ProductInt(sum, 134775813, product);
    SumInt(product, 1, SecondKey(k1, k0));
    Literals();
    ModularStep(Int32(k1) + Int32(k0) % 0x100);
  }

  lemma SecondKeyParts(k1: bv32, k0: bv32) returns (sum: bv32, product: bv32)
    ensures IsSum(k1, Bottom(k0), sum) && IsProduct(sum, 134775813, product) && IsSum(product, 1, SecondKey(k1, k0))
  {
    hide *;
    sum, product := k1 + (k0 & 0xff), SecondKey(k1, k0) - 1;
    SecondKeyProduct(k1, k0);
    SecondKeySums(k1, k0);
  }

  lemma SecondKeyProduct(k1: bv32, k0: bv32)
    ensures IsProduct(k1 + (k0 & 0xff), 134775813, SecondKey(k1, k0) - 1)
  {
  }

  lemma SecondKeySums(k1: bv32, k0: bv32)
    ensures IsSum(k1, Bottom(k0), k1 + (k0 & 0xff)) && IsSum(SecondKey(k1, k0) - 1, 1, SecondKey(k1, k0))
  {
    hide SecondKey;
  }

  lemma Literals()
    ensures Int32(134775813) == 134775813 && Int32(1) == 1
  {
  }

  lemma ModularStep(n: nat)
    ensures (n % 0x1_0000_0000 * 134775813 % 0x1_0000_0000 + 1) % 0x1_0000_0000
      == (n * 134775813 + 1) % 0x1_0000_0000
  {
    hide *;
    Reduced(n % 0x1_0000_0000 * 134775813, 1);
    SameRest(n * 134775813 + 1, n % 0x1_0000_0000 * 134775813 + 1, n / 0x1_0000_0000 * 134775813);
  }

  lemma SameRest(a: nat, b: nat, q: nat)
    requires a == b + q * 0x1_0000_0000
    ensures a % 0x1_0000_0000 == b % 0x1_0000_0000
  {
  }

  /** The byte of the stream, for all keys: the second byte of the product of two neighbours below 2^16. */
  lemma StreamByteInt(k: Keys)
    ensures var n := Int32(k.k2) % 0x1_0000;
      var odd := if n / 2 % 2 == 1 then n else n + 2;
      var other := if odd % 2 == 1 then odd - 1 else odd + 1;
      Int8(StreamByte(k)) == odd * other / 0x100 % 0x100
  {
    hide *;
    FactorsInt(k.k2);
    StreamFactors(k, Int32(Odd(k.k2)), Int32(Other(Odd(k.k2))));
  }

  lemma StreamFactors(k: Keys, a: nat, b: nat)
    requires a == Int32(Odd(k.k2)) < 0x1_0000 && b == Int32(Other(Odd(k.k2))) < 0x1_0000
    ensures Int8(StreamByte(k)) == a * b / 0x100 % 0x100
  {
    hide *;
    StreamStart(k);
    var product := OneProduct(Odd(k.k2), Other(Odd(k.k2)));
    ScrambledProduct(Odd(k.k2), product);
    ProductInt(Odd(k.k2), Other(Odd(k.k2)), product);
    SmallProduct(a, b);
    SecondDigit(product, a * b);
  }

  lemma SecondDigit(product: bv32, n: nat)
    requires Int32(product) == n % 0x1_0000_0000 && n < 0x1_0000_0000
    ensures Int8(Second(product)) == n / 0x100 % 0x100
  {
    hide *;
    Unreduced(n);
    BytesInt(product);
  }

  lemma SmallProduct(a: nat, b: nat)
    requires a < 0x1_0000 && b < 0x1_0000
    ensures a * b < 0x1_0000_0000
  {
    NoMore(a, 0xffff, b);
  }

  lemma NoMore(a: nat, most: nat, b: nat)
    requires a <= most
    ensures a * b <= most * b
  {
    assert most * b == a * b + (most - a) * b;
  }

  lemma Unreduced(p: nat)
    requires p < 0x1_0000_0000
    ensures p % 0x1_0000_0000 == p
  {
  }

  lemma StreamStart(k: Keys)
    ensures StreamByte(k) == Scrambled(Odd(k.k2))
  {
    hide Scrambled, Odd;
    OddMeans(k.k2);
  }

  lemma OddMeans(x: bv32)
    ensures Odd(x) == (x | 2) & 0xffff
  {
  }

  lemma ScrambledProduct(tmp: bv32, product: bv32)
    requires IsProduct(tmp, Other(tmp), product)
    ensures Scrambled(tmp) == Second(product)
  {
    hide Scrambled, IsProduct;
    SecondByte(tmp, product);
  }

  lemma SecondByte(tmp: bv32, product: bv32)
    requires IsProduct(tmp, tmp ^ 1, product)
    ensures Scrambled(tmp) == ((product >> 8) & 0xff) as bv8
  {
  }

  /** The entries of zlib's table that the examples meet. */
  predicate ZlibEntries(t: Table) {
    && t(0x19) == 0x646B_A8C0 && t(0x23) == 0xA267_7172 && t(0x2A) == 0xDBBB_C9D6
    && t(0xD1) == 0xF1D4_E242 && t(0xD5) == 0xF6B9_265B && t(0xF4) == 0xBAD0_3605
  }

  /** The keys of the passwords "a" and "ab", and what they make of cipher texts. */
  lemma KnownKeys(t: Table)
    requires ZlibEntries(t)
    ensures var k := UpdateAll(t, INITIAL, [0x61]);
      && k == Keys(0x6479_9C96, 0xB303_049C, 0xA253_270A) && StreamByte(k) == 0x33 && Decrypt(t, k, [0x33]) == [0]
    ensures var k := UpdateAll(t, INITIAL, [0x61, 0x62]);
      && k == Keys(0xBAB4_4F99, 0xDF66_6E0A, 0xF61B_757C) && StreamByte(k) == 0xDF
      && Decrypt(t, k, [0x97, 0x68]) == [0x48, 0x69]
  {
  }

  // ----- the layer

  /** `struct trad_pkware` over the cipher text of one member. */
  class Decryptor {
    const table: Table
    const cipher: seq<bv8>
    /** The n-th read from below brings at most grain(n) bytes, but at least one, or fails. */
    const grain: nat -> nat
    const fails: nat -> bool
    var cursor: nat
    var turn: nat
    var key: Keys

    /** `zip_source_pkware`: the keys start with the password. */
    constructor (table: Table, cipher: seq<bv8>, grain: nat -> nat, fails: nat -> bool, password: seq<bv8>)
      ensures this.table == table && this.cipher == cipher && this.grain == grain && this.fails == fails
      ensures cursor == 0 && turn == 0 && key == UpdateAll(table, INITIAL, password)
    {
      hide UpdateAll, Decrypt;
      this.table, this.cipher, this.grain, this.fails := table, cipher, grain, fails;
      cursor, turn, key := 0, 0, INITIAL;
      new;
      var in_ := new bv8[|password|](i requires 0 <= i < |password| => password[i]);
      assert in_[..|password|] == password;
      Mix(in_, |password|, true);
    }

    /** `decrypt`, with output in place of the input (or no output when only the keys are to be updated). */
    method Mix(data: array<bv8>, len: nat, updateOnly: bool)
      requires len <= data.Length
      modifies this`key, data
      ensures updateOnly ==> data[..] == old(data[..]) && key == UpdateAll(table, old(key), old(data[..len]))
      ensures !updateOnly ==>
        && data[..] == Decrypt(table, old(key), old(data[..len])) + old(data[len..])
        && key == UpdateAll(table, old(key), data[..len])
    {
      hide Masked, Update, StreamByte, UpdateAll, Decrypt;
      ghost var input := data[..];
      ghost var clear := if updateOnly then input[..len] else Decrypt(table, key, input[..len]);
      UpdateNone(table, key);
      var i := 0;
      while i < len
        invariant 0 <= i <= len
        invariant data[..] == clear[..i] + input[i..]
        invariant key == UpdateAll(table, old(key), clear[..i])
      {
        if !updateOnly {
          DecryptAt(table, old(key), input[..len], i);
        }
        KeysAfter(table, old(key), clear, i);
        MixNext(data, i, updateOnly, clear, input);
        i := i + 1;
      }
      assert clear[..len] == clear;
    }

    /** One round of the loop of `decrypt`, which puts the right byte. */
    method MixNext(data: array<bv8>, i: nat, updateOnly: bool, ghost clear: seq<bv8>, ghost input: seq<bv8>)
      requires i < |clear| <= |input| == data.Length && data[..] == clear[..i] + input[i..]
      requires clear[i] == if updateOnly then input[i] else Masked(input[i], StreamByte(key))
      modifies this`key, data
      ensures data[..] == clear[..i + 1] + input[i + 1..] && key == Update(table, old(key), clear[i])
    {
      hide Masked, Update, StreamByte;
      assert data[..][i] == input[i];
      Placed(clear, input, i);
      MixByte(data, i, updateOnly);
    }

    /** What `decrypt` does with a byte. */
    method MixByte(data: array<bv8>, i: nat, updateOnly: bool)
      requires i < data.Length
      modifies this`key, data
      ensures var b := if updateOnly then old(data[i]) else Masked(old(data[i]), StreamByte(old(key)));
        data[..] == old(data[..])[i := b] && key == Update(table, old(key), b)
    {
      hide Masked, Update, StreamByte;
      var b := data[i];
      if !updateOnly {
        b := Masked(b, StreamByte(key));
      }
      data[i] := b;
      key := Update(table, key, b);
    }

    lemma Placed(clear: seq<bv8>, input: seq<bv8>, i: nat)
      requires i < |clear| <= |input|
      ensures (clear[..i] + input[i..])[i := clear[i]] == clear[..i + 1] + input[i + 1..]
    {
    }

    /** How many bytes the n-th read from below can bring. */
    function Most(n: nat): nat {
      if grain(n) == 0 then 1 else grain(n)
    }

    /** `zip_source_read` from below: as many bytes as there are, as were asked for and as this read can bring. */
    method Fetch(n: nat) returns (bytes: Option<seq<bv8>>)
      requires cursor <= |cipher|
      modifies this`cursor, this`turn
      ensures turn == old(turn) + 1 && (bytes == None <==> fails(old(turn)))
      ensures old(cursor) <= cursor <= |cipher|
      ensures bytes == None ==> cursor == old(cursor)
      ensures bytes.Some? ==>
        && bytes.value == cipher[old(cursor)..cursor]
        && cursor - old(cursor) == Least(n, Least(Most(old(turn)), |cipher| - old(cursor)))
    {
      turn := turn + 1;
      if fails(turn - 1) {
        return None;
      }
      var k := Least(n, Least(Most(turn - 1), |cipher| - cursor));
      bytes := Some(cipher[cursor..cursor + k]);
      cursor := cursor + k;
    }

    /** `decrypt_header`: twelve bytes, in one read; the last one must be the top byte of the checksum or of the
        modification time, when those are known. A source that brings fewer than twelve at once is taken to end. */
    method DecryptHeader(check: Option<(bv8, bv8)>) returns (error: Option<Error>)
      requires cursor == 0
      modifies this
      ensures cursor <= |cipher|
      ensures error == None ==>
        && cursor == 12
        && key == UpdateAll(table, old(key), Decrypt(table, old(key), cipher[..12]))
      ensures error ==
        if fails(old(turn)) then Some(LowerError)
        else if |cipher| < 12 || Most(old(turn)) < 12 then Some(EndOfFile)
        else
          var last := Decrypt(table, old(key), cipher[..12])[11];
          if check.Some? && last != check.value.0 && last != check.value.1 then Some(WrongPassword) else None
    {
      hide UpdateAll, Decrypt;
      var header := Fetch(HEADERLEN);
      if header == None {
        return Some(LowerError);
      }
      if |header.value| != HEADERLEN {
        return Some(EndOfFile);
      }
      var buf := new bv8[HEADERLEN](i requires 0 <= i < HEADERLEN => header.value[i]);
      assert buf[..] == header.value && buf[..HEADERLEN] == header.value && header.value == cipher[..HEADERLEN];
      Mix(buf, HEADERLEN, false);
      assert buf[..HEADERLEN] == buf[..];
      if check.Some? && buf[HEADERLEN - 1] != check.value.0 && buf[HEADERLEN - 1] != check.value.1 {
        return Some(WrongPassword);
      }
      error := None;
    }

    /** Where a session stands: everything up to the cursor has been decrypted from the keys `first`. */
    ghost predicate Standing(first: Keys, clear: seq<bv8>)
      reads this
    {
      && cursor <= |cipher|
      && clear == Decrypt(table, first, cipher[..cursor])
      && key == UpdateAll(table, first, clear)
    }

    /** READ: decrypts what comes from below in the caller's buffer. */
    method Read(data: array<bv8>, n: nat, ghost first: Keys, ghost clear: seq<bv8>) returns (got: Option<nat>)
      requires n <= data.Length && Standing(first, clear)
      modifies this, data
      ensures got == None <==> fails(old(turn))
      ensures got == None ==> Standing(first, clear) && data[..] == old(data[..])
      ensures got.Some? ==>
        && got.value <= n && Standing(first, clear + data[..got.value])
        && got.value == Least(n, Least(Most(old(turn)), |cipher| - old(cursor)))
        && data[got.value..] == old(data[got.value..])
      ensures turn == old(turn) + 1 && cursor == old(cursor) + if got.Some? then got.value else 0
    {
      hide UpdateAll, Decrypt;
      ghost var start := cursor;
      var bytes := Fetch(n);
      if bytes == None {
        return None;
      }
      var len := |bytes.value|;
      forall i | 0 <= i < len {
        data[i] := bytes.value[i];
      }
      assert data[..len] == bytes.value;
      Mix(data, len, false);
      DecryptJoins(table, first, cipher[..start], bytes.value);
      assert cipher[..cursor] == cipher[..start] + bytes.value;
      assert data[..len] == Decrypt(table, old(key), bytes.value);
      UpdateJoins(table, first, clear, data[..len]);
      got := Some(len);
    }

    /** The clear text of the member behind its header. */
    ghost function Plain(first: Keys): seq<bv8> {
      if |cipher| < HEADERLEN then [] else Decrypt(table, first, cipher)[HEADERLEN..]
    }

    /** The session of one member: its header, then reads of any sizes up to the first error. However the reads are
        cut, what comes out is a prefix of the clear text behind the header, and all of it once a non-empty request is
        answered with nothing. */
    method Session(check: Option<(bv8, bv8)>, sizes: seq<nat>)
      returns (error: Option<Error>, out: seq<bv8>, ended: bool)
      requires cursor == 0
      modifies this
      ensures cursor <= |cipher| && out <= Plain(old(key))
      ensures error == None ==>
        && |out| == cursor - 12
        && key == UpdateAll(table, old(key), Decrypt(table, old(key), cipher[..cursor]))
      ensures ended ==> error == None && out == Plain(old(key))
      ensures error == None && !ended && (forall i | 0 <= i < |sizes| :: sizes[i] > 0) ==> |out| >= |sizes|
    {
      hide UpdateAll, Decrypt;
      ghost var first := key;
      out, ended := [], false;
      error := DecryptHeader(check);
      if error.Some? {
        return;
      }
      ghost var clear := Decrypt(table, first, cipher[..HEADERLEN]);
      ghost var header := clear;
      var i := 0;
      while i < |sizes| && error == None
        invariant i <= |sizes|
        invariant Standing(first, clear) && clear == header + out && |header| == HEADERLEN <= cursor
        invariant ended ==> error == None && cursor == |cipher|
        invariant error == None && !ended && (forall j | 0 <= j < i :: sizes[j] > 0) ==> |out| >= i
        decreases |sizes| - i, error == None
      {
        var data := new bv8[sizes[i]];
        var got := Read(data, sizes[i], first, clear);
        if got == None {
          error, ended := Some(LowerError), false;
        } else {
          clear := clear + data[..got.value];
          out := out + data[..got.value];
          ended := ended || (sizes[i] > 0 && got.value == 0);
          i := i + 1;
        }
      }
      DecryptJoins(table, first, cipher[..cursor], cipher[cursor..]);
      assert cipher[..cursor] + cipher[cursor..] == cipher;
      assert clear[HEADERLEN..] == out;
    }
  }

  lemma KeysAfter(t: Table, k: Keys, clear: seq<bv8>, i: nat)
    requires i < |clear|
    ensures UpdateAll(t, k, clear[..i + 1]) == Update(t, UpdateAll(t, k, clear[..i]), clear[i])
  {
    hide Update, UpdateAll;
    assert clear[..i] + [clear[i]] == clear[..i + 1];
    UpdateJoins(t, k, clear[..i], [clear[i]]);
    UpdateOne(t, UpdateAll(t, k, clear[..i]), clear[i]);
  }

  function Least(a: nat, b: nat): nat {
    if a < b then a else b
  }

  /** A member of two hundred bytes behind a source that brings five at a time is refused, whatever the password. */
  method ShortReadsRefused(table: Table, cipher: seq<bv8>, password: seq<bv8>) returns (error: Option<Error>)
    requires |cipher| == 200
    ensures error == Some(EndOfFile)
  {
    var d := new Decryptor(table, cipher, _ => 5, _ => false, password);
    error := d.DecryptHeader(None);
  }

  /** One byte of a decryption, by the keys that the bytes before it leave. */
  lemma {:induction false} DecryptAt(t: Table, k: Keys, cipher: seq<bv8>, i: nat)
    requires i < |cipher|
    ensures Decrypt(t, k, cipher)[i] == Masked(cipher[i], StreamByte(UpdateAll(t, k, Decrypt(t, k, cipher)[..i])))
    decreases i
  {
    hide Masked, Update, StreamByte;
    var clear := Decrypt(t, k, cipher);
    if i > 0 {
      var next := Update(t, k, clear[0]);
      DecryptAt(t, next, cipher[1..], i - 1);
      assert clear[1..] == Decrypt(t, next, cipher[1..]);
      assert clear[..i][1..] == clear[1..][..i - 1];
    }
  }

  /** A member encrypted with a password, read with the same password in any pieces: the header passes and what is
      read is a prefix of the clear text, for every header whose last byte is the one checked. */
  lemma {:induction false} SamePassword(t: Table, password: seq<bv8>, header: seq<bv8>, clear: seq<bv8>)
    requires |header| == HEADERLEN
    ensures var k := UpdateAll(t, INITIAL, password);
      var cipher := Encrypt(t, k, header + clear);
      && Decrypt(t, k, cipher)[HEADERLEN..] == clear
      && |cipher| == HEADERLEN + |clear|
      && Decrypt(t, k, cipher[..HEADERLEN]) == header
  {
    var k := UpdateAll(t, INITIAL, password);
    var cipher := Encrypt(t, k, header + clear);
    DecryptEncrypt(t, k, header + clear);
    assert |cipher| == |Decrypt(t, k, cipher)|;
    DecryptJoins(t, k, cipher[..HEADERLEN], cipher[HEADERLEN..]);
    assert cipher[..HEADERLEN] + cipher[HEADERLEN..] == cipher;
  }
}
