/** What C's unsigned arithmetic on 32-bit words means in integers. */
module Words {
  function Int8(x: bv8): (r: nat)
    ensures r < 0x100
  {
    x as int
  }

  function Int32(x: bv32): (r: nat)
    ensures r < 0x1_0000_0000
  {
    x as int
  }

  // ----- bytes of a word

  /** The word of four bytes, the highest first. */
  function Word(d: bv8, c: bv8, b: bv8, a: bv8): bv32 {
    ((d as bv32) << 24) | ((c as bv32) << 16) | ((b as bv32) << 8) | (a as bv32)
  }

  lemma Split(x: bv32) returns (d: bv8, c: bv8, b: bv8, a: bv8)
    ensures x == Word(d, c, b, a)
  {
    d, c, b, a := (x >> 24) as bv8, ((x >> 16) & 0xff) as bv8, ((x >> 8) & 0xff) as bv8, (x & 0xff) as bv8;
  }

  lemma WordInt(d: bv8, c: bv8, b: bv8, a: bv8)
    ensures Int32(Word(d, c, b, a)) == ((Int8(d) * 0x100 + Int8(c)) * 0x100 + Int8(b)) * 0x100 + Int8(a)
  {
  }

  lemma Zeros()
    ensures Int8(0) == 0 && Int32(0) == 0 && Int32(1) == 1
  {
  }

  // ----- counting

  function Next8(x: bv8): bv8 { x + 1 }

  function Next(x: bv32): bv32 { x + 1 }

  lemma NextByte(x: bv8)
    ensures Int8(Next8(x)) == if x == 0xff then 0 else Int8(x) + 1
    ensures Int8(x) == 0xff <==> x == 0xff
  {
  }

  lemma Carry(d: bv8, c: bv8, b: bv8, a: bv8)
    ensures
      var c1, c2, c3 := a == 0xff, a == 0xff && b == 0xff, a == 0xff && b == 0xff && c == 0xff;
      Next(Word(d, c, b, a))
      == Word(if c3 then Next8(d) else d, if c2 then Next8(c) else c, if c1 then Next8(b) else b, Next8(a))
  {
  }

  lemma AllOnes(d: bv8, c: bv8, b: bv8, a: bv8)
    ensures Word(d, c, b, a) == 0xffff_ffff <==> d == 0xff && c == 0xff && b == 0xff && a == 0xff
  {
  }

  lemma NextInt(x: bv32)
    ensures Int32(Next(x)) == if x == 0xffff_ffff then 0 else Int32(x) + 1
    ensures Int32(x) == 0xffff_ffff <==> x == 0xffff_ffff
  {
    hide *;
    var d, c, b, a := Split(x);
    var c1, c2, c3 := a == 0xff, a == 0xff && b == 0xff, a == 0xff && b == 0xff && c == 0xff;
    Carry(d, c, b, a);
    AllOnes(d, c, b, a);
    WordInt(d, c, b, a);
    WordInt(if c3 then Next8(d) else d, if c2 then Next8(c) else c, if c1 then Next8(b) else b, Next8(a));
    NextByte(a);
    NextByte(b);
    NextByte(c);
    NextByte(d);
  }

  // ----- sums and products

  predicate IsSum(x: bv32, y: bv32, s: bv32) { s == x + y }

  predicate IsProduct(x: bv32, y: bv32, p: bv32) { p == x * y }

  lemma Previous(y: bv32) returns (z: bv32)
    requires y != 0
    ensures y == Next(z) && z != 0xffff_ffff
  {
    z := y - 1;
  }

  lemma NoSum(x: bv32, s: bv32)
    requires IsSum(x, 0, s)
    ensures s == x
  {
  }

  lemma SumGrows(x: bv32, z: bv32)
    ensures forall s :: IsSum(x, z, s) ==> IsSum(x, z + 1, s + 1)
  {
  }

  lemma SumStep(x: bv32, z: bv32, s: bv32)
    requires IsSum(x, z, s)
    ensures IsSum(x, Next(z), Next(s))
  {
    hide IsSum;
    SumGrows(x, z);
  }

  lemma ProductStep(x: bv32, z: bv32)
    ensures forall p :: IsProduct(x, z, p) ==> IsProduct(x, z + 1, p + x)
  {
  }

  lemma OneSum(x: bv32, y: bv32) returns (s: bv32)
    ensures forall t :: IsSum(x, y, t) <==> t == s
  {
    s := x + y;
  }

  lemma OneProduct(x: bv32, y: bv32) returns (p: bv32)
    ensures forall q :: IsProduct(x, y, q) <==> p == q
  {
    p := x * y;
  }

  lemma NoProduct(x: bv32, p: bv32)
    requires IsProduct(x, 0, p)
    ensures p == 0
  {
  }

  lemma {:induction false} SumInt(x: bv32, y: bv32, s: bv32)
    requires IsSum(x, y, s)
    ensures Int32(s) == (Int32(x) + Int32(y)) % 0x1_0000_0000
    decreases Int32(y)
  {
    hide *;
    Zeros();
    if y == 0 {
      NoSum(x, s);
    } else {
      var z := Previous(y);
      NextInt(z);
      var t := OneSum(x, z);
      var u := OneSum(x, y);
      SumStep(x, z, t);
      NextInt(t);
      SumInt(x, z, t);
    }
  }

  lemma {:induction false} ProductInt(x: bv32, y: bv32, p: bv32)
    requires IsProduct(x, y, p)
    ensures Int32(p) == (Int32(x) * Int32(y)) % 0x1_0000_0000
    decreases Int32(y)
  {
    hide *;
    Zeros();
    if y == 0 {
      NoProduct(x, p);
    } else {
      var z := Previous(y);
      NextInt(z);
      var q := OneProduct(x, z);
      var p' := OneProduct(x, y);
      ProductNext(x, z, q, p);
      SumInt(q, x, p);
      ProductInt(x, z, q);
      OneMore(Int32(x), Int32(z));
    }
  }

  lemma ProductNext(x: bv32, z: bv32, q: bv32, p: bv32)
    requires IsProduct(x, z, q) && IsProduct(x, Next(z), p)
    ensures IsSum(q, x, p)
  {
    hide IsProduct;
    ProductStep(x, z);
    var p' := OneProduct(x, z + 1);
  }

  lemma OneMore(x: nat, z: nat)
    ensures ((x * z) % 0x1_0000_0000 + x) % 0x1_0000_0000 == (x * (z + 1)) % 0x1_0000_0000
  {
    assert x * (z + 1) == x * z + x;
    Reduced(x * z, x);
  }

  lemma Reduced(a: nat, b: nat)
    ensures (a % 0x1_0000_0000 + b) % 0x1_0000_0000 == (a + b) % 0x1_0000_0000
  {
  }

  // ----- bytes and bits

  function Top(x: bv32): bv8 { (x >> 24) as bv8 }

  function Second(x: bv32): bv8 { ((x >> 8) & 0xff) as bv8 }

  function Bottom(x: bv32): bv32 { x & 0xff }

  lemma BytesOf(d: bv8, c: bv8, b: bv8, a: bv8)
    ensures Top(Word(d, c, b, a)) == d && Second(Word(d, c, b, a)) == b
    ensures Bottom(Word(d, c, b, a)) == Word(0, 0, 0, a)
  {
  }

  lemma BytesInt(x: bv32)
    ensures Int8(Top(x)) == Int32(x) / 0x100_0000 && Int8(Second(x)) == Int32(x) / 0x100 % 0x100
    ensures Int32(Bottom(x)) == Int32(x) % 0x100
  {
    hide *;
    var d, c, b, a := Split(x);
    BytesOf(d, c, b, a);
    WordInt(d, c, b, a);
    WordInt(0, 0, 0, a);
    Zeros();
    FourDigits(Int8(d), Int8(c), Int8(b), Int8(a));
  }

  lemma FourDigits(d: nat, c: nat, b: nat, a: nat)
    requires c < 0x100 && b < 0x100 && a < 0x100
    ensures var n := ((d * 0x100 + c) * 0x100 + b) * 0x100 + a;
      n / 0x100_0000 == d && n / 0x100 % 0x100 == b && n % 0x100 == a
  {
    var n := ((d * 0x100 + c) * 0x100 + b) * 0x100 + a;
    assert n / 0x100 == (d * 0x100 + c) * 0x100 + b;
    assert n == d * 0x100_0000 + (c * 0x1_0000 + b * 0x100 + a);
  }

  /** The two factors of a byte of the stream. */
  function Odd(x: bv32): bv32 { (x | 2) & 0xffff }

  function Other(x: bv32): bv32 { x ^ 1 }

  function WithTwo(b: bv8): bv8 { b | 2 }

  function WithoutOne(b: bv8): bv8 { b ^ 1 }

  lemma BitTwo(b: bv8)
    ensures Int8(WithTwo(b)) == Int8(b) + if Int8(b) / 2 % 2 == 1 then 0 else 2
  {
  }

  lemma BitOne(b: bv8)
    ensures Int8(WithoutOne(b)) == Int8(b) + if Int8(b) % 2 == 1 then -1 else 1
  {
  }

  lemma FactorsOf(d: bv8, c: bv8, b: bv8, a: bv8)
    ensures Odd(Word(d, c, b, a)) == Word(0, 0, b, WithTwo(a))
    ensures Other(Word(0, 0, b, a)) == Word(0, 0, b, WithoutOne(a))
  {
  }

  lemma FactorsInt(x: bv32)
    ensures var n := Int32(x) % 0x1_0000;
      var t := if n / 2 % 2 == 1 then n else n + 2;
      Int32(Odd(x)) == t && Int32(Other(Odd(x))) == if t % 2 == 1 then t - 1 else t + 1
  {
    hide *;
    var d, c, b, a := Split(x);
    var a' := WithTwo(a);
    FactorsOf(d, c, b, a);
    FactorsOf(d, c, b, a');
    WordInt(d, c, b, a);
    WordInt(0, 0, b, a');
    WordInt(0, 0, b, WithoutOne(a'));
    Zeros();
    BitTwo(a);
    BitOne(a');
    LowBits(Int32(x), Int8(d) * 0x100 + Int8(c), Int8(b), Int8(a));
  }

  lemma LowBits(x: nat, h: nat, b: nat, a: nat)
    requires x == (h * 0x100 + b) * 0x100 + a && a < 0x100 && b < 0x100
    ensures var n := x % 0x1_0000;
      && n == b * 0x100 + a && n / 2 % 2 == a / 2 % 2 && forall k | 0 <= k < 0x100 :: (b * 0x100 + k) % 2 == k % 2
  {
    assert b * 0x100 + a == (b * 0x80 + a / 2) * 2 + a % 2;
  }
}
