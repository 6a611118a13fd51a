/** The two string hashes of the hash table (src/core/hashtable.cpp).

    `unsigned long` is 64 bits wide, so every shift, addition and subtraction is
    reduced modulo 2^64 where the program performs it.
  */
module Hashing {
  import opened Bytes

  /** The characters of a C string in front of its terminating NUL. */
  type CString = s: seq<Byte> | 0 !in s

  const ULONG: nat := 0x1_0000_0000_0000_0000
  const HASH_BASE: nat := 5381
  const BERNSTEIN: nat := 33
  const SDBM: nat := 65599

  function Shl(x: nat, bits: nat): nat {
    x * Pow(2, bits) % ULONG
  }

  function Pow(base: nat, exponent: nat): (p: nat) {
    if exponent == 0 then 1 else base * Pow(base, exponent - 1)
  }

  /** `buf` holds `s` followed by its NUL; whatever comes after the NUL is ignored. */
  ghost predicate Terminated(buf: seq<Byte>, s: CString) {
    |s| < |buf| && buf[..|s|] == s && buf[|s|] == 0
  }

  /** A `char` read as an `int`: the upper half of the byte range is negative. */
  function SignExtended(c: Byte): int {
    if c < 128 then c else c - 256
  }

  function Signed(s: seq<Byte>): (r: seq<int>)
    ensures |r| == |s|
    ensures forall i :: 0 <= i < |s| ==> r[i] == s[i] as int - (if s[i] < 128 then 0 else 256)
  {
    seq(|s|, i requires 0 <= i < |s| => SignExtended(s[i]))
  }

  /** The sum over i of coefficients[i] * base^(n - 1 - i). */
  function PolySum(base: nat, coefficients: seq<int>): int {
    if coefficients == [] then 0
    else coefficients[0] * Pow(base, |coefficients| - 1) + PolySum(base, coefficients[1..])
  }

  /** The polynomial with leading coefficient `init`: init * base^n plus the sum. */
  function Polynomial(init: int, base: nat, coefficients: seq<int>): int {
    init * Pow(base, |coefficients|) + PolySum(base, coefficients)
  }

  /** One more character multiplies the polynomial by the base and adds the character. */
  lemma {:induction false} PolynomialStep(init: int, base: nat, cs: seq<int>, c: int)
    ensures Polynomial(init, base, cs + [c]) == Polynomial(init, base, cs) * base + c
  {
    PolySumStep(base, cs, c);
    var n := |cs|;
    assert Pow(base, n + 1) == base * Pow(base, n);
    assert init * (base * Pow(base, n)) == init * Pow(base, n) * base;
  }

  lemma {:induction false} PolySumStep(base: nat, cs: seq<int>, c: int)
    ensures PolySum(base, cs + [c]) == PolySum(base, cs) * base + c
  {
    if cs == [] {
      assert cs + [c] == [c];
      assert PolySum(base, [c]) == c * Pow(base, 0) + PolySum(base, []);
    } else {
      var n := |cs|;
      assert (cs + [c])[1..] == cs[1..] + [c];
      PolySumStep(base, cs[1..], c);
      assert Pow(base, n) == base * Pow(base, n - 1);
      assert cs[0] * (base * Pow(base, n - 1)) == cs[0] * Pow(base, n - 1) * base;
    }
  }

  /** hash * 33 + c, character by character from the initial value 5381. */
  function Bernstein(s: CString): (hash: nat)
    ensures hash < ULONG
    decreases |s|
  {
    if s == [] then HASH_BASE
    else (Bernstein(s[..|s| - 1]) * BERNSTEIN + s[|s| - 1]) % ULONG
  }

  /** hash * 65599 + c, character by character from 0. */
  function Sdbm(s: CString): (hash: nat)
    ensures hash < ULONG
    decreases |s|
  {
    if s == [] then 0
    else (Sdbm(s[..|s| - 1]) * SDBM + SignExtended(s[|s| - 1])) % ULONG
  }

  /** The wrapping loop computes 5381 * 33^n + sum of c[i] * 33^(n - 1 - i), modulo 2^64. */
  lemma {:induction false} BernsteinIsPolynomial(s: CString)
    ensures Bernstein(s) == Polynomial(5381, 33, s) % 0x1_0000_0000_0000_0000
    decreases |s|
  {
    if s != [] {
      var front: CString, c := s[..|s| - 1], s[|s| - 1];
      BernsteinIsPolynomial(front);
      assert s == front + [c];
      PolynomialStep(HASH_BASE, BERNSTEIN, front, c);
      ReducedStep(Polynomial(HASH_BASE, BERNSTEIN, front), BERNSTEIN, c);
    }
  }

  /** sdbm is the sum of c[i] * 65599^(n - 1 - i) over the sign-extended characters, modulo 2^64. */
  lemma {:induction false} SdbmIsPolynomial(s: CString)
    ensures Sdbm(s) == Polynomial(0, 65599, Signed(s)) % 0x1_0000_0000_0000_0000
    decreases |s|
  {
    if s != [] {
      var front: CString, c := s[..|s| - 1], SignExtended(s[|s| - 1]);
      SdbmIsPolynomial(front);
      assert Signed(s) == Signed(front) + [c];
      PolynomialStep(0, SDBM, Signed(front), c);
      ReducedStep(Polynomial(0, SDBM, Signed(front)), SDBM, c);
    }
  }

  /** Reducing before a multiply-and-add loses nothing modulo 2^64. */
  lemma ReducedStep(x: int, base: nat, c: int)
    ensures (x % ULONG * base + c) % ULONG == (x * base + c) % ULONG
  {
    var q := x / ULONG;
    assert x == q * ULONG + x % ULONG;
    assert x * base + c == (x % ULONG * base + c) + (q * base) * ULONG;
    AddMultiple(x % ULONG * base + c, q * base);
  }

  lemma AddMultiple(x: int, k: int)
    ensures (x + k * ULONG) % ULONG == x % ULONG
  {
    var q, r := x / ULONG, x % ULONG;
    assert x + k * ULONG == (q + k) * ULONG + r;
    QuotientIsUnique(x + k * ULONG, q + k, r);
  }

  lemma QuotientIsUnique(x: int, q: int, r: int)
    requires x == q * ULONG + r && 0 <= r < ULONG
    ensures x % ULONG == r
  {
    var q', r' := x / ULONG, x % ULONG;
    assert (q - q') * ULONG == r' - r;
  }

  lemma SumOfReduced(x: int, c: int)
    ensures (x % ULONG + c) % ULONG == (x + c) % ULONG
  {
    ReducedStep(x, 1, c);
  }

  lemma PowersOfTwo()
    ensures Pow(2, 5) == 32 && Pow(2, 6) == 64 && Pow(2, 16) == 65536
  {
    assert Pow(2, 4) == 16;
    assert Pow(2, 8) == 256;
    assert Pow(2, 12) == 4096;
  }

  /** ( hash << 5 ) + hash + c is hash * 33 + c. */
  lemma BernsteinStep(h: nat, c: int)
    ensures ((Shl(h, 5) + h) % ULONG + c) % ULONG == (h * BERNSTEIN + c) % ULONG
  {
    PowersOfTwo();
    SumOfReduced(h * 32, h);
    SumOfReduced(h * 33, c);
  }

  /** c + ( hash << 6 ) + ( hash << 16 ) - hash is hash * 65599 + c. */
  lemma SdbmStep(h: nat, c: int)
    ensures (((c % ULONG + Shl(h, 6)) % ULONG + Shl(h, 16)) % ULONG - h) % ULONG
         == (h * SDBM + c) % ULONG
  {
    PowersOfTwo();
    SumOfReduced(c, Shl(h, 6));
    SumOfReduced(h * 64, c);
    SumOfReduced(h * 64 + c, Shl(h, 16));
    SumOfReduced(h * 65536, h * 64 + c);
    SumOfReduced(h * 65600 + c, 0 - h);
  }

  /** B_hash reads its characters through `unsigned char*`, so they are 0 to 255. */
  method BHash(str: array<Byte>, ghost s: CString) returns (hash: nat)
    requires Terminated(str[..], s)
    ensures hash == Bernstein(s)
  {
    hash := HASH_BASE;
    var i := 0;
    while str[i] != 0
      invariant 0 <= i <= |s| && hash == Bernstein(s[..i])
      decreases |s| - i
    {
      assert str[..][..|s|] == s;
      assert s[..i + 1][..i] == s[..i];
      BernsteinStep(hash, str[i]);
      hash := ((Shl(hash, 5) + hash) % ULONG + str[i]) % ULONG;
      i := i + 1;
    }
    assert i == |s| && s[..i] == s;
  }

  /** sdbm_hash reads its characters through `char*`, so they are sign extended. */
  method SdbmHash(str: array<Byte>, ghost s: CString) returns (hash: nat)
    requires Terminated(str[..], s)
    ensures hash == Sdbm(s)
  {
    hash := 0;
    var i := 0;
    while str[i] != 0
      invariant 0 <= i <= |s| && hash == Sdbm(s[..i])
      decreases |s| - i
    {
      assert str[..][..|s|] == s;
      assert s[..i + 1][..i] == s[..i];
      var c := SignExtended(str[i]);
      SdbmStep(hash, c);
      hash := (((c % ULONG + Shl(hash, 6)) % ULONG + Shl(hash, 16)) % ULONG - hash) % ULONG;
      i := i + 1;
    }
    assert i == |s| && s[..i] == s;
  }

  /** x % n, as the recursion that only proofs about the remainder itself need to look into. */
  function Remainder(x: nat, n: nat): (r: nat)
    requires n > 0
    ensures r < n
    decreases x
  {
    if x < n then x else Remainder(x - n, n)
  }

  /** The chain a key belongs to in a table with `size` chains. */
  function ChainOf(key: CString, size: nat): (i: nat)
    requires size > 0
    ensures i < size
  {
    Remainder(Bernstein(key), size)
  }

  lemma {:induction false} RemainderIsModulo(x: nat, n: nat)
    requires n > 0
    ensures Remainder(x, n) == x % n
    decreases x
  {
    if x >= n {
      RemainderIsModulo(x - n, n);
      assert x == (x - n) / n * n + (x - n) % n + n;
      UniqueRemainder(x, n, (x - n) / n + 1, (x - n) % n);
    }
  }

  lemma UniqueRemainder(x: nat, n: nat, q: nat, r: nat)
    requires r < n && x == q * n + r
    ensures x % n == r
  {
    var d := q - x / n;
    assert d * n == x % n - r;
    assert d >= 1 ==> d * n >= n;
    assert d <= -1 ==> d * n <= 0 - n;
  }

  /** It is the hash of the key modulo the size of the table. */
  lemma ChainOfIsModulo(key: CString, size: nat)
    requires size > 0
    ensures ChainOf(key, size) == Bernstein(key) % size
  {
    RemainderIsModulo(Bernstein(key), size);
  }

  /** myhash( key ) % h->size, on the key as a NUL-terminated string. */
  method IndexOf(key: CString, size: nat) returns (index: nat)
    requires size > 0
    ensures index == ChainOf(key, size)
  {
    var str := new Byte[|key| + 1](i => if 0 <= i < |key| then key[i] else 0);
    assert str[..|key|] == key;
    var hs := BHash(str, key);
    ChainOfIsModulo(key, size);
    index := hs % size;
  }
}
