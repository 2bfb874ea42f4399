/** The FNV-1 hash that stands for lock objects (src/lock_tracking.c:127-143). A C `unsigned int`
    is an integer below 2^32 here and its product is taken modulo 2^32. */
module LockHash {
  import opened VarAccesses

  const TWO_TO_THE_32 := 0x1_0000_0000
  const FNV_OFFSET_BASIS: uint32 := 0x811c9dc5
  const FNV_PRIME := 0x01000193
  // FNV_PRIME * FNV_PRIME_INVERSE == 0x359c99 * 2^32 + 1
  const FNV_PRIME_INVERSE := 0x359c449b

  type uint32 = x: int | 0 <= x < TWO_TO_THE_32

  function Pow2(n: nat): (r: nat)
    ensures r > 0
  {
    if n == 0 then 1 else 2 * Pow2(n - 1)
  }

  lemma {:induction false} PowersOfTwo()
    ensures Pow2(24) == 0x100_0000 && Pow2(32) == TWO_TO_THE_32
  {
    assert Pow2(8) == 256 && Pow2(16) == 0x1_0000;
  }

  /** Exclusive or of the low n bits. */
  function XorBits(n: nat, a: nat, b: nat): (r: nat)
    ensures r < Pow2(n)
  {
    if n == 0 then 0 else 2 * XorBits(n - 1, a / 2, b / 2) + (if a % 2 == b % 2 then 0 else 1)
  }

  function Xor(h: uint32, b: uint32): uint32 {
    PowersOfTwo();
    XorBits(32, h, b)
  }

  function Times(h: uint32, k: int): uint32 {
    (h * k) % TWO_TO_THE_32
  }

  function Mix(h: uint32, b: byte): uint32 {
    Xor(Times(h, FNV_PRIME), b)
  }

  function Unmix(h: uint32, b: byte): uint32 {
    Times(Xor(h, b), FNV_PRIME_INVERSE)
  }

  function HashFrom(h: uint32, s: CString): uint32
    decreases s
  {
    if s == [] then h else HashFrom(Mix(h, s[0]), s[1..])
  }

  function Hash(s: CString): uint32 {
    HashFrom(FNV_OFFSET_BASIS, s)
  }

  method GenHash(s: CString) returns (hash: uint32)
    ensures hash == Hash(s)
  {
    hash := FNV_OFFSET_BASIS;
    var i := 0;
    while i < |s|
      invariant 0 <= i <= |s|
      invariant HashFrom(hash, s[i..]) == Hash(s)
    {
      hash := Times(hash, FNV_PRIME);
      hash := Xor(hash, s[i]);
      i := i + 1;
    }
  }

  function Bit(a: nat, k: nat): nat {
    if k == 0 then a % 2 else Bit(a / 2, k - 1)
  }

  /** Each bit of the result is one exactly where the two numbers differ. */
  lemma {:induction false} XorBitsAt(n: nat, a: nat, b: nat, k: nat)
    requires k < n
    ensures Bit(XorBits(n, a, b), k) == if Bit(a, k) == Bit(b, k) then 0 else 1
  {
    if k > 0 {
      XorBitsAt(n - 1, a / 2, b / 2, k - 1);
    }
  }

  lemma {:induction false} XorBitsWithNone(n: nat, a: nat)
    ensures XorBits(n, a, 0) == a % Pow2(n) && XorBits(n, a, a) == 0
  {
    if n > 0 {
      XorBitsWithNone(n - 1, a / 2);
      HalvesModulo(a, Pow2(n - 1));
    }
  }

  lemma {:induction false} HalvesModulo(a: nat, m: nat)
    requires m > 0
    ensures a % (2 * m) == 2 * (a / 2 % m) + a % 2
  {
    var q, r := a / 2 / m, a / 2 % m;
    assert a == q * (2 * m) + (2 * r + a % 2);
    ModuloIs(a, q, 2 * m, 2 * r + a % 2);
  }

  lemma {:induction false} ModuloIs(a: nat, q: nat, m: nat, r: nat)
    requires r < m && a == q * m + r
    ensures a % m == r
  {
    var d := a / m - q;
    assert d * m == r - a % m;
    MultipleGrows(d, m);
  }

  lemma {:induction false} MultipleGrows(d: int, m: int)
    requires m >= 0
    ensures d >= 1 ==> d * m >= m
    ensures d <= -1 ==> d * m <= -m
  {
    if d >= 1 {
      assert d * m == m + (d - 1) * m;
    } else if d <= -1 {
      assert d * m == -m - (-d - 1) * m;
    }
  }

  /** The hashes of the empty string and of "a". */
  lemma {:induction false} KnownHashes()
    ensures Hash([]) == 0x811c9dc5 && Hash([0x61]) == 0x050c5d7e
  {
    hide XorBits;
    KnownXor();
    assert Times(FNV_OFFSET_BASIS, FNV_PRIME) == 0x050c5d1f;
    assert [0x61 as byte][1..] == [];
  }

  lemma {:induction false} XorOnce(n: nat, a: nat, b: nat)
    ensures XorBits(n + 1, a, b) == 2 * XorBits(n, a / 2, b / 2) + (if a % 2 == b % 2 then 0 else 1)
  {
  }

  lemma {:induction false} KnownXor()
    ensures XorBits(32, 0x050c5d1f, 0x61) == 0x050c5d7e
  {
    hide XorBits, Pow2;
    PowersOfTwo();
    XorBitsWithNone(24, 0x05_0c5d);
    XorOnce(24, 0xa18ba, 0x0);
    XorOnce(25, 0x143174, 0x1);
    XorOnce(26, 0x2862e8, 0x3);
    XorOnce(27, 0x50c5d1, 0x6);
    XorOnce(28, 0xa18ba3, 0xc);
    XorOnce(29, 0x1431747, 0x18);
    XorOnce(30, 0x2862e8f, 0x30);
    XorOnce(31, 0x50c5d1f, 0x61);
  }

  lemma {:induction false} XorBitsTwice(n: nat, a: nat, b: nat)
    requires a < Pow2(n)
    ensures XorBits(n, XorBits(n, a, b), b) == a
  {
    if n > 0 {
      XorBitsTwice(n - 1, a / 2, b / 2);
    }
  }

  lemma {:induction false} XorBitsIsInjective(n: nat, a: nat, b: nat, c: nat)
    requires b < Pow2(n) && c < Pow2(n) && XorBits(n, a, b) == XorBits(n, a, c)
    ensures b == c
  {
    if n > 0 {
      XorBitsIsInjective(n - 1, a / 2, b / 2, c / 2);
    }
  }

  lemma {:induction false} TimesInverse(h: uint32, p: nat, q: nat, k: nat)
    requires p * q == k * TWO_TO_THE_32 + 1
    ensures Times(Times(h, p), q) == h
  {
    var carry := h * p / TWO_TO_THE_32;
    var low := Times(h, p);
    calc {
      low * q;
      (h * p - carry * TWO_TO_THE_32) * q;
      h * (p * q) - carry * TWO_TO_THE_32 * q;
      h * (k * TWO_TO_THE_32 + 1) - carry * TWO_TO_THE_32 * q;
      h + (h * k - carry * q) * TWO_TO_THE_32;
    }
    assert low * q % TWO_TO_THE_32 == h by { RemainderOf(h, h * k - carry * q); }
  }

  lemma {:induction false} RemainderOf(r: uint32, m: int)
    ensures (r + m * TWO_TO_THE_32) % TWO_TO_THE_32 == r
  {
  }

  /** Each mixing step is a permutation of the 32-bit state. */
  lemma {:induction false} MixIsPermutation(h: uint32, b: byte)
    ensures Unmix(Mix(h, b), b) == h && Mix(Unmix(h, b), b) == h
  {
    PowersOfTwo();
    XorBitsTwice(32, Times(h, FNV_PRIME), b);
    XorBitsTwice(32, h, b);
    TimesInverse(h, FNV_PRIME, FNV_PRIME_INVERSE, 0x359c99);
    TimesInverse(Xor(h, b), FNV_PRIME_INVERSE, FNV_PRIME, 0x359c99);
  }

  lemma {:induction false} MixSeparatesBytes(h: uint32, b: byte, c: byte)
    requires b != c
    ensures Mix(h, b) != Mix(h, c)
  {
    if Mix(h, b) == Mix(h, c) {
      PowersOfTwo();
      XorBitsIsInjective(32, Times(h, FNV_PRIME), b, c);
    }
  }

  lemma {:induction false} EqualTailKeepsStatesApart(h: uint32, g: uint32, s: CString)
    ensures HashFrom(h, s) == HashFrom(g, s) <==> h == g
    decreases s
  {
    if s != [] {
      MixIsPermutation(h, s[0]);
      MixIsPermutation(g, s[0]);
      EqualTailKeepsStatesApart(Mix(h, s[0]), Mix(g, s[0]), s[1..]);
    }
  }

  lemma {:induction false} HashFromAppend(h: uint32, s: CString, t: CString)
    ensures HashFrom(h, s + t) == HashFrom(HashFrom(h, s), t)
    decreases s
  {
    if s == [] {
      assert s + t == t;
    } else {
      assert (s + t)[1..] == s[1..] + t;
      HashFromAppend(Mix(h, s[0]), s[1..], t);
    }
  }

  /** Two strings of equal length that differ in exactly one byte, wherever it is, never collide. */
  lemma {:induction false} OneByteApartNeverCollide(prefix: CString, b: byte, c: byte, suffix: CString)
    requires b != c
    ensures Hash(prefix + [b] + suffix) != Hash(prefix + [c] + suffix)
  {
    HashFromAppend(FNV_OFFSET_BASIS, prefix + [b], suffix);
    HashFromAppend(FNV_OFFSET_BASIS, prefix + [c], suffix);
    HashFromAppend(FNV_OFFSET_BASIS, prefix, [b]);
    HashFromAppend(FNV_OFFSET_BASIS, prefix, [c]);
    MixSeparatesBytes(Hash(prefix), b, c);
    EqualTailKeepsStatesApart(HashFrom(Hash(prefix), [b]), HashFrom(Hash(prefix), [c]), suffix);
  }
}
