/**
 The FNV-1a hash of `kernel/include/los_hash.h` and its use for path names.

 A 32-bit word is a number below 2^32: the product wraps around explicitly, and the exclusive
 or is spelled out bit by bit.
 */
module Fnv {
  type Octet = x: int | 0 <= x < 0x100
  type Octets = seq<Octet>
  type Word = x: int | 0 <= x < 0x1_0000_0000

  const FNV1_32A_INIT: Word := 0x811c9dc5

  // ----- exclusive or -----

  function Pow2(n: nat): (r: nat)
    ensures r > 0
  {
    if n == 0 then 1 else 2 * Pow2(n - 1)
  }

  lemma {:induction false} PowAdd(m: nat, n: nat)
    ensures Pow2(m + n) == Pow2(m) * Pow2(n)
  {
    if n > 0 {
      PowAdd(m, n - 1);
    }
  }

  lemma PowWord()
    ensures Pow2(32) == 0x1_0000_0000
  {
    assert Pow2(2) == 4 && Pow2(4) == 16;
    PowAdd(4, 4);
    PowAdd(8, 8);
    PowAdd(16, 16);
  }

  /** The exclusive or of the lowest `n` bits. */
  function Xor(a: nat, b: nat, n: nat): (r: nat)
    ensures r < Pow2(n)
  {
    if n == 0 then 0 else (a + b) % 2 + 2 * Xor(a / 2, b / 2, n - 1)
  }

  lemma LowestBit(a: nat, b: nat, q: nat)
    ensures var r := (a + b) % 2 + 2 * q; r / 2 == q && (r + b) % 2 == a % 2 && a == a % 2 + 2 * (a / 2)
  {
    var r := (a + b) % 2 + 2 * q;
    assert r / 2 == q;
    var k := (a + b) / 2;
    assert r + b == a + 2 * (b + q - k);
  }

  lemma {:induction false} XorTwice(a: nat, b: nat, n: nat)
    requires a < Pow2(n)
    ensures Xor(Xor(a, b, n), b, n) == a
  {
    if n > 0 {
      XorTwice(a / 2, b / 2, n - 1);
      LowestBit(a, b, Xor(a / 2, b / 2, n - 1));
    }
  }

  lemma {:induction false} XorSwap(a: nat, b: nat, n: nat)
    ensures Xor(a, b, n) == Xor(b, a, n)
  {
    if n > 0 {
      XorSwap(a / 2, b / 2, n - 1);
    }
  }

  lemma HalfPower(x: nat, k: nat)
    requires k > 0
    ensures x / (2 * k) == x / 2 / k
  {
    var q, r := x / 2 / k, x / 2 % k;
    assert x / 2 == k * q + r && x == 2 * (x / 2) + x % 2;
    assert x == (2 * k) * q + (2 * r + x % 2);
    Quotient(x, 2 * k, q, 2 * r + x % 2);
  }

  lemma Quotient(x: nat, d: nat, q: nat, r: nat)
    requires x == d * q + r && r < d
    ensures x / d == q
  {
    var p := x / d;
    Multiples(d, p, q);
    Multiples(d, q, p);
    assert x == d * p + x % d && 0 <= x % d < d;
  }

  lemma Multiples(d: nat, a: nat, b: nat)
    ensures a < b ==> d * a + d <= d * b
  {
    if a < b {
      var k: nat := b - a - 1;
      assert b == a + 1 + k && d * k >= 0;
      assert d * (a + 1 + k) == d * a + d + d * k;
    }
  }

  lemma XorFirst(a: nat, b: nat, n: nat)
    requires n > 0
    ensures Xor(a, b, n) == (a + b) % 2 + 2 * Xor(a / 2, b / 2, n - 1)
  {
  }

  lemma {:induction false} XorZero(a: nat, n: nat)
    requires a < Pow2(n)
    ensures Xor(a, 0, n) == a
  {
    if n > 0 {
      XorZero(a / 2, n - 1);
    }
  }

  /** A bit of the exclusive or is set exactly if the two bits differ. */
  lemma {:induction false} XorBit(a: nat, b: nat, n: nat, i: nat)
    requires i < n
    ensures Xor(a, b, n) / Pow2(i) % 2 == if a / Pow2(i) % 2 != b / Pow2(i) % 2 then 1 else 0
  {
    if i == 0 {
      XorFirst(a, b, n);
      LowestDiffers(a, b, Xor(a / 2, b / 2, n - 1));
    } else {
      XorBit(a / 2, b / 2, n - 1, i - 1);
      XorFirst(a, b, n);
      LowestBit(a, b, Xor(a / 2, b / 2, n - 1));
      hide Xor;
      PowHalf(a, i);
      PowHalf(b, i);
      PowHalf(Xor(a, b, n), i);
    }
  }

  lemma LowestDiffers(a: nat, b: nat, q: nat)
    ensures Pow2(0) == 1 && ((a + b) % 2 + 2 * q) % 2 == if a % 2 != b % 2 then 1 else 0
  {
  }

  lemma PowHalf(x: nat, i: nat)
    requires i > 0
    ensures x / Pow2(i) == x / 2 / Pow2(i - 1)
  {
    HalfPower(x, Pow2(i - 1));
  }

  function XorOctet(h: Word, octet: Octet): Word
  {
    PowWord();
    Xor(h, octet, 32)
  }

  // ----- the hash -----

  /** Times the FNV prime, modulo 2^32. */
  function TimesPrime(h: Word): Word
  {
    (h * 0x01000193) % 0x1_0000_0000
  }

  /** Times 0x359c449b, the inverse of the prime modulo 2^32. */
  function OverPrime(h: Word): Word
  {
    (h * 0x359c449b) % 0x1_0000_0000
  }

  function Step(h: Word, octet: Octet): Word
  {
    TimesPrime(XorOctet(h, octet))
  }

  function Unstep(h: Word, octet: Octet): Word
  {
    XorOctet(OverPrime(h), octet)
  }

  function Hash(buf: Octets, h: Word): Word
  {
    if buf == [] then h else Hash(buf[1..], Step(h, buf[0]))
  }

  /** Runs the hash backwards over the same octets. */
  function Unhash(buf: Octets, h: Word): Word
  {
    if buf == [] then h else Unstep(Unhash(buf[1..], h), buf[0])
  }

  /** What the hash is: octet by octet, an exclusive or and a product with the prime. */
  lemma HashLaw(octet: Octet, rest: Octets, h: Word, i: nat)
    requires i < 32
    ensures Hash([], h) == h
    ensures var x := XorOctet(h, octet);
            && Hash([octet] + rest, h) == Hash(rest, (x * 0x01000193) % 0x1_0000_0000)
            && x / Pow2(i) % 2 == if h / Pow2(i) % 2 != octet / Pow2(i) % 2 then 1 else 0
  {
    assert ([octet] + rest)[1..] == rest;
    XorBit(h, octet, 32, i);
  }

  lemma XorOfA()
    ensures Xor(0x811c9dc5, 0x61, 32) == 0x811c9da4
  {
    PowWord();
    PowAdd(25, 7);
    assert Pow2(7) == 128;
    hide Xor, Pow2;
    XorZero(0x102393b, 25);
    XorFirst(0x2047277, 0x1, 26);
    assert Xor(0x2047277, 0x1, 26) == 0x2047276;
    XorFirst(0x408e4ee, 0x3, 27);
    assert Xor(0x408e4ee, 0x3, 27) == 0x408e4ed;
    XorFirst(0x811c9dc, 0x6, 28);
    assert Xor(0x811c9dc, 0x6, 28) == 0x811c9da;
    XorFirst(0x102393b8, 0xc, 29);
    assert Xor(0x102393b8, 0xc, 29) == 0x102393b4;
    XorFirst(0x20472771, 0x18, 30);
    assert Xor(0x20472771, 0x18, 30) == 0x20472769;
    XorFirst(0x408e4ee2, 0x30, 31);
    assert Xor(0x408e4ee2, 0x30, 31) == 0x408e4ed2;
    XorFirst(0x811c9dc5, 0x61, 32);
    assert Xor(0x811c9dc5, 0x61, 32) == 0x811c9da4;
  }

  /** A known value: the hash of "a". */
  lemma HashOfA()
    ensures Hash([0x61], 0x811c9dc5) == 0xe40c292c
  {
    XorOfA();
    hide Xor;
    HashLaw(0x61, [], 0x811c9dc5, 0);
    assert [0x61 as Octet] + [] == [0x61];
    assert (0x811c9da4 * 0x01000193) % 0x1_0000_0000 == 0xe40c292c;
  }

  /** LOS_HashFNV32aBuf */
  method HashFNV32aBuf(buf: Octets, init: Word) returns (hval: Word)
    ensures hval == Hash(buf, init)
  {
    hval := init;
    var i := 0;
    while i < |buf|
      invariant 0 <= i <= |buf|
      invariant Hash(buf, init) == Hash(buf[i..], hval)
    {
      assert buf[i..][1..] == buf[i + 1..];
      hval := XorOctet(hval, buf[i]);
      hval := TimesPrime(hval);
      i := i + 1;
    }
  }

  lemma PrimeInverse(h: Word)
    ensures OverPrime(TimesPrime(h)) == h && TimesPrime(OverPrime(h)) == h
  {
    var m, p, v := 0x1_0000_0000, 0x01000193, 0x359c449b;
    assert p * v == 1 + 3513497 * m;
    var q, r := h * p / m, h * v / m;
    assert TimesPrime(h) == h * p - m * q && OverPrime(h) == h * v - m * r;
    assert TimesPrime(h) * v == h + m * (3513497 * h - v * q);
    assert OverPrime(h) * p == h + m * (3513497 * h - p * r);
    Remainder(h, 3513497 * h - v * q);
    Remainder(h, 3513497 * h - p * r);
  }

  lemma Remainder(h: Word, k: int)
    ensures (h + 0x1_0000_0000 * k) % 0x1_0000_0000 == h
  {
  }

  /** Each octet permutes the 32-bit states: `Unstep` is its inverse on both sides. */
  lemma StepBijective(h: Word, octet: Octet)
    ensures Unstep(Step(h, octet), octet) == h
    ensures Step(Unstep(h, octet), octet) == h
  {
    PowWord();
    PrimeInverse(XorOctet(h, octet));
    XorTwice(h, octet, 32);
    XorTwice(OverPrime(h), octet, 32);
    PrimeInverse(h);
  }

  /** Different octets lead from one state to different states. */
  lemma StepApart(h: Word, x: Octet, y: Octet)
    requires x != y
    ensures Step(h, x) != Step(h, y)
  {
    PowWord();
    XorSwap(h, x, 32);
    XorSwap(h, y, 32);
    XorTwice(x, h, 32);
    XorTwice(y, h, 32);
    PrimeInverse(XorOctet(h, x));
    PrimeInverse(XorOctet(h, y));
  }

  /** Hashing a concatenation continues the hash of the first part over the second. */
  lemma {:induction false} HashConcat(a: Octets, b: Octets, h: Word)
    ensures Hash(a + b, h) == Hash(b, Hash(a, h))
  {
    if a == [] {
      assert a + b == b;
    } else {
      assert (a + b)[1..] == a[1..] + b;
      HashConcat(a[1..], b, Step(h, a[0]));
    }
  }

  /** The hash over fixed octets permutes the 32-bit states. */
  lemma {:induction false} HashBijective(buf: Octets, h: Word)
    ensures Unhash(buf, Hash(buf, h)) == h
    ensures Hash(buf, Unhash(buf, h)) == h
  {
    if buf != [] {
      HashBijective(buf[1..], Step(h, buf[0]));
      HashBijective(buf[1..], h);
      StepBijective(h, buf[0]);
      StepBijective(Unhash(buf[1..], h), buf[0]);
    }
  }

  /** The bytes of a 32-bit pointer as they lie in (little endian) memory. */
  function PointerOctets(p: Word): Octets
  {
    [p % 0x100, p / 0x100 % 0x100, p / 0x1_0000 % 0x100, p / 0x100_0000]
  }

  /** NameHash: the name, then the pointer to the parent vnode. */
  function NameHash(name: Octets, parent: Word): Word
  {
    Hash(PointerOctets(parent), Hash(name, FNV1_32A_INIT))
  }

  /** The hash of a name in a directory is that of the name and the four octets of the pointer. */
  lemma NameHashLaw(name: Octets, parent: Word)
    ensures NameHash(name, parent) == Hash(name + PointerOctets(parent), 0x811c9dc5)
  {
    hide Hash, PointerOctets;
    HashConcat(name, PointerOctets(parent), 0x811c9dc5);
  }

  /** The lowest octet comes first. */
  lemma PointerLaw()
    ensures PointerOctets(0x04030201) == [1, 2, 3, 4]
  {
  }

  /**
   Names of one directory that have the same length and differ in exactly one octet never
   share their 32-bit hash (they may still share a bucket).
   */
  lemma OneOctetApart(a: Octets, b: Octets, i: nat, parent: Word)
    requires |a| == |b| && i < |a| && a[i] != b[i]
    requires forall j: nat | j < |a| && j != i :: a[j] == b[j]
    ensures NameHash(a, parent) != NameHash(b, parent)
  {
    var pre, post := a[..i], a[i + 1..];
    assert a == pre + ([a[i]] + post) && b == pre + ([b[i]] + post);
    var h := Hash(pre, FNV1_32A_INIT);
    HashConcat(pre, [a[i]] + post, FNV1_32A_INIT);
    HashConcat(pre, [b[i]] + post, FNV1_32A_INIT);
    assert ([a[i]] + post)[1..] == post && ([b[i]] + post)[1..] == post;
    StepApart(h, a[i], b[i]);
    HashBijective(post, Step(h, a[i]));
    HashBijective(post, Step(h, b[i]));
    HashBijective(PointerOctets(parent), Hash(a, FNV1_32A_INIT));
    HashBijective(PointerOctets(parent), Hash(b, FNV1_32A_INIT));
  }
}
