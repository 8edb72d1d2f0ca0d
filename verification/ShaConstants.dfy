/** The constants of the two hashes against their definitions in sections 4.2 and 5.3 of FIPS 180-4. */
module ShaConstants {
  import Bits
  import opened Bytes
  import opened Words
  import opened ShaSpec

  // The first 64 primes, eight a row.
  const PRIMES: seq<seq<nat>> := [
    [2, 3, 5, 7, 11, 13, 17, 19],
    [23, 29, 31, 37, 41, 43, 47, 53],
    [59, 61, 67, 71, 73, 79, 83, 89],
    [97, 101, 103, 107, 109, 113, 127, 131],
    [137, 139, 149, 151, 157, 163, 167, 173],
    [179, 181, 191, 193, 197, 199, 211, 223],
    [227, 229, 233, 239, 241, 251, 257, 263],
    [269, 271, 277, 281, 283, 293, 307, 311]]

  function PrimeAt(t: nat): nat
    requires t < 64
  {
    PRIMES[t / 8][t % 8]
  }

  ghost predicate Prime(n: nat) { n >= 2 && forall d :: 2 <= d < n ==> n % d != 0 }

  /** No smaller prime divides: enough for numbers below 19 times 19. */
  predicate Sieved(n: nat) {
    && (n % 2 != 0 || n == 2) && (n % 3 != 0 || n == 3) && (n % 5 != 0 || n == 5) && (n % 7 != 0 || n == 7)
    && (n % 11 != 0 || n == 11) && (n % 13 != 0 || n == 13) && (n % 17 != 0 || n == 17)
  }

  /** The first 32 bits of the fractional part of the cube root of p. */
  ghost predicate CubeRootFraction(p: nat, k: u32) {
    exists whole: nat :: CubeRoot(p, whole * 0x1_0000_0000 + k as nat)
  }

  /** x is the cube root of p to 32 places behind the point, rounded down. */
  predicate CubeRoot(p: nat, x: nat) {
    var scaled := p * 0x1_0000_0000 * 0x1_0000_0000 * 0x1_0000_0000;
    x * x * x <= scaled < (x + 1) * (x + 1) * (x + 1)
  }

  lemma Cube(p: nat, whole: nat, k: u32)
    requires CubeRoot(p, whole * 0x1_0000_0000 + k as nat)
    ensures CubeRootFraction(p, k)
  {
  }

  ghost predicate RightRow(r: nat)
    requires r < 8
  {
    forall c :: 0 <= c < 8 ==> CubeRootFraction(PRIMES[r][c], SHA256_K[r][c])
  }

  lemma Row0()
    ensures RightRow(0)
  {
    hide CubeRootFraction;
    Cube(2, 1, 0x428a2f98);
    Cube(3, 1, 0x71374491);
    Cube(5, 1, 0xb5c0fbcf);
    Cube(7, 1, 0xe9b5dba5);
    Cube(11, 2, 0x3956c25b);
    Cube(13, 2, 0x59f111f1);
    Cube(17, 2, 0x923f82a4);
    Cube(19, 2, 0xab1c5ed5);
  }

  lemma Row1()
    ensures RightRow(1)
  {
    hide CubeRootFraction;
    Cube(23, 2, 0xd807aa98);
    Cube(29, 3, 0x12835b01);
    Cube(31, 3, 0x243185be);
    Cube(37, 3, 0x550c7dc3);
    Cube(41, 3, 0x72be5d74);
    Cube(43, 3, 0x80deb1fe);
    Cube(47, 3, 0x9bdc06a7);
    Cube(53, 3, 0xc19bf174);
  }

  lemma Row2()
    ensures RightRow(2)
  {
    hide CubeRootFraction;
    Cube(59, 3, 0xe49b69c1);
    Cube(61, 3, 0xefbe4786);
    Cube(67, 4, 0x0fc19dc6);
    Cube(71, 4, 0x240ca1cc);
    Cube(73, 4, 0x2de92c6f);
    Cube(79, 4, 0x4a7484aa);
    Cube(83, 4, 0x5cb0a9dc);
    Cube(89, 4, 0x76f988da);
  }

  lemma Row3()
    ensures RightRow(3)
  {
    hide CubeRootFraction;
    Cube(97, 4, 0x983e5152);
    Cube(101, 4, 0xa831c66d);
    Cube(103, 4, 0xb00327c8);
    Cube(107, 4, 0xbf597fc7);
    Cube(109, 4, 0xc6e00bf3);
    Cube(113, 4, 0xd5a79147);
    Cube(127, 5, 0x06ca6351);
    Cube(131, 5, 0x14292967);
  }

  lemma Row4()
    ensures RightRow(4)
  {
    hide CubeRootFraction;
    Cube(137, 5, 0x27b70a85);
    Cube(139, 5, 0x2e1b2138);
    Cube(149, 5, 0x4d2c6dfc);
    Cube(151, 5, 0x53380d13);
    Cube(157, 5, 0x650a7354);
    Cube(163, 5, 0x766a0abb);
    Cube(167, 5, 0x81c2c92e);
    Cube(173, 5, 0x92722c85);
  }

  lemma Row5()
    ensures RightRow(5)
  {
    hide CubeRootFraction;
    Cube(179, 5, 0xa2bfe8a1);
    Cube(181, 5, 0xa81a664b);
    Cube(191, 5, 0xc24b8b70);
    Cube(193, 5, 0xc76c51a3);
    Cube(197, 5, 0xd192e819);
    Cube(199, 5, 0xd6990624);
    Cube(211, 5, 0xf40e3585);
    Cube(223, 6, 0x106aa070);
  }

  lemma Row6()
    ensures RightRow(6)
  {
    hide CubeRootFraction;
    Cube(227, 6, 0x19a4c116);
    Cube(229, 6, 0x1e376c08);
    Cube(233, 6, 0x2748774c);
    Cube(239, 6, 0x34b0bcb5);
    Cube(241, 6, 0x391c0cb3);
    Cube(251, 6, 0x4ed8aa4a);
    Cube(257, 6, 0x5b9cca4f);
    Cube(263, 6, 0x682e6ff3);
  }

  lemma Row7()
    ensures RightRow(7)
  {
    hide CubeRootFraction;
    Cube(269, 6, 0x748f82ee);
    Cube(271, 6, 0x78a5636f);
    Cube(277, 6, 0x84c87814);
    Cube(281, 6, 0x8cc70208);
    Cube(283, 6, 0x90befffa);
    Cube(293, 6, 0xa4506ceb);
    Cube(307, 6, 0xbef9a3f7);
    Cube(311, 6, 0xc67178f2);
  }

  // A row at a time: when 2 and 3 are out, few numbers are left beside the primes.
  lemma Sieve0(n: nat)
    requires 1 < n <= 19
    ensures Sieved(n) <==>
      n == 2 || n == 3 || n == 5 || n == 7 || n == 11 || n == 13 || n == 17 || n == 19
  {
  }

  lemma Sieve1(n: nat)
    requires 19 < n <= 53
    ensures Sieved(n) <==>
      n == 23 || n == 29 || n == 31 || n == 37 || n == 41 || n == 43 || n == 47 || n == 53
  {
    assert n % 2 != 0 && n % 3 != 0 ==>
      n == 23 || n == 25 || n == 29 || n == 31 || n == 35 || n == 37 || n == 41 || n == 43 || n == 47 ||
      n == 49 || n == 53;
  }

  lemma Sieve2(n: nat)
    requires 53 < n <= 89
    ensures Sieved(n) <==>
      n == 59 || n == 61 || n == 67 || n == 71 || n == 73 || n == 79 || n == 83 || n == 89
  {
    assert n % 2 != 0 && n % 3 != 0 ==>
      n == 55 || n == 59 || n == 61 || n == 65 || n == 67 || n == 71 || n == 73 || n == 77 || n == 79 ||
      n == 83 || n == 85 || n == 89;
  }

  lemma Sieve3(n: nat)
    requires 89 < n <= 131
    ensures Sieved(n) <==>
      n == 97 || n == 101 || n == 103 || n == 107 || n == 109 || n == 113 || n == 127 || n == 131
  {
    assert n % 2 != 0 && n % 3 != 0 ==>
      n == 91 || n == 95 || n == 97 || n == 101 || n == 103 || n == 107 || n == 109 || n == 113 || n == 115 ||
      n == 119 || n == 121 || n == 125 || n == 127 || n == 131;
  }

  lemma Sieve4(n: nat)
    requires 131 < n <= 173
    ensures Sieved(n) <==>
      n == 137 || n == 139 || n == 149 || n == 151 || n == 157 || n == 163 || n == 167 || n == 173
  {
    assert n % 2 != 0 && n % 3 != 0 ==>
      n == 133 || n == 137 || n == 139 || n == 143 || n == 145 || n == 149 || n == 151 || n == 155 || n == 157 ||
      n == 161 || n == 163 || n == 167 || n == 169 || n == 173;
  }

  lemma Sieve5(n: nat)
    requires 173 < n <= 223
    ensures Sieved(n) <==>
      n == 179 || n == 181 || n == 191 || n == 193 || n == 197 || n == 199 || n == 211 || n == 223
  {
    assert n % 2 != 0 && n % 3 != 0 ==>
      n == 175 || n == 179 || n == 181 || n == 185 || n == 187 || n == 191 || n == 193 || n == 197 || n == 199 ||
      n == 203 || n == 205 || n == 209 || n == 211 || n == 215 || n == 217 || n == 221 || n == 223;
  }

  lemma Sieve6(n: nat)
    requires 223 < n <= 263
    ensures Sieved(n) <==>
      n == 227 || n == 229 || n == 233 || n == 239 || n == 241 || n == 251 || n == 257 || n == 263
  {
    assert n % 2 != 0 && n % 3 != 0 ==>
      n == 227 || n == 229 || n == 233 || n == 235 || n == 239 || n == 241 || n == 245 || n == 247 || n == 251 ||
      n == 253 || n == 257 || n == 259 || n == 263;
  }

  lemma Sieve7(n: nat)
    requires 263 < n <= 311
    ensures Sieved(n) <==>
      n == 269 || n == 271 || n == 277 || n == 281 || n == 283 || n == 293 || n == 307 || n == 311
  {
    assert n % 2 != 0 && n % 3 != 0 ==>
      n == 265 || n == 269 || n == 271 || n == 275 || n == 277 || n == 281 || n == 283 || n == 287 || n == 289 ||
      n == 293 || n == 295 || n == 299 || n == 301 || n == 305 || n == 307 || n == 311;
  }

  /** A number below 361 that is not a prime has a divisor below 19. */
  lemma SievedIsPrime(n: nat)
    requires 2 <= n < 361
    ensures Sieved(n) <==> Prime(n)
  {
    if Sieved(n) {
      forall d | 2 <= d < n ensures n % d != 0 {
        if n % d == 0 {
          var e := n / d;
          assert n == d * e;
          SmallDivisor(n, if d <= e then d else e, if d <= e then e else d);
        }
      }
    }
  }

  lemma SmallDivisor(n: nat, f: nat, g: nat)
    requires n == f * g && n < 361 && 2 <= f <= g
    ensures !Sieved(n)
  {
    assert f < 19 by {
      assert f >= 19 ==> f * g >= 19 * g;
    }
    if f % 2 == 0 {
      Multiple(n, f, g, 2);
    } else if f % 3 == 0 {
      Multiple(n, f, g, 3);
    } else {
      PrimeFactor(f);
      Multiple(n, f, g, f);
    }
  }

  lemma PrimeFactor(f: nat)
    requires 2 <= f < 19 && f % 2 != 0 && f % 3 != 0
    ensures f == 5 || f == 7 || f == 11 || f == 13 || f == 17
  {
  }

  lemma Multiple(n: nat, f: nat, g: nat, q: nat)
    requires n == f * g && g >= 2 && q >= 1 && f >= 1 && f % q == 0
    ensures n % q == 0 && n > q
  {
    var k := f / q;
    assert f == q * k;
    assert n == q * (k * g);
    Bits.DivModUnique(n, q, k * g, 0);
    assert k * g >= 2;
    assert q * (k * g) >= q * 2;
  }

  // What the rows end with.
  const ENDS: seq<nat> := [1, 19, 53, 89, 131, 173, 223, 263, 311]

  lemma RowIncreases(r: nat)
    requires r < 8
    ensures ENDS[r] < PRIMES[r][0] && PRIMES[r][7] == ENDS[r + 1]
    ensures forall c, d :: 0 <= c < d < 8 ==> PRIMES[r][c] < PRIMES[r][d]
  {
  }

  lemma InRow(n: nat, r: nat)
    requires r < 8 && ENDS[r] < n <= ENDS[r + 1]
    ensures Sieved(n) <==> n in PRIMES[r]
  {
    match r {
      case 0 => Sieve0(n);
      case 1 => Sieve1(n);
      case 2 => Sieve2(n);
      case 3 => Sieve3(n);
      case 4 => Sieve4(n);
      case 5 => Sieve5(n);
      case 6 => Sieve6(n);
      case 7 => Sieve7(n);
    }
  }

  lemma Ordered(t: nat, u: nat)
    requires t < u < 64
    ensures PrimeAt(t) < PrimeAt(u)
  {
    var r, r' := t / 8, u / 8;
    RowIncreases(r);
    RowIncreases(r');
    if r < r' {
      assert t % 8 == 7 || PRIMES[r][t % 8] < PRIMES[r][7];
      assert u % 8 == 0 || PRIMES[r'][0] < PRIMES[r'][u % 8];
    }
  }

  lemma IsPrime(t: nat)
    requires t < 64
    ensures 2 <= PrimeAt(t) <= 311 && Prime(PrimeAt(t))
  {
    hide Sieved, Prime;
    var r, c := t / 8, t % 8;
    RowIncreases(r);
    assert c == 0 || PRIMES[r][0] < PRIMES[r][c];
    assert c == 7 || PRIMES[r][c] < PRIMES[r][7];
    InRow(PrimeAt(t), r);
    SievedIsPrime(PrimeAt(t));
  }

  lemma RowFor(n: nat) returns (r: nat)
    requires 1 < n <= 311
    ensures r < 8 && ENDS[r] < n <= ENDS[r + 1]
  {
    r := if n <= 19 then 0 else if n <= 53 then 1 else if n <= 89 then 2 else if n <= 131 then 3
         else if n <= 173 then 4 else if n <= 223 then 5 else if n <= 263 then 6 else 7;
  }

  /** The table holds the first 64 primes in order. */
  lemma FirstPrimes()
    ensures forall t :: 0 <= t < 64 ==> Prime(PrimeAt(t))
    ensures forall t, u :: 0 <= t < u < 64 ==> PrimeAt(t) < PrimeAt(u)
    ensures forall n: nat :: Prime(n) && n <= PrimeAt(63) ==> exists t :: 0 <= t < 64 && PrimeAt(t) == n
  {
    hide Sieved, Prime;
    forall t | 0 <= t < 64 ensures Prime(PrimeAt(t)) {
      IsPrime(t);
    }
    forall t, u | 0 <= t < u < 64 ensures PrimeAt(t) < PrimeAt(u) {
      Ordered(t, u);
    }
    forall n: nat | Prime(n) && n <= PrimeAt(63) ensures exists t :: 0 <= t < 64 && PrimeAt(t) == n {
      var t := PlaceOf(n);
    }
  }

  lemma PlaceOf(n: nat) returns (t: nat)
    requires Prime(n) && n <= PrimeAt(63)
    ensures t < 64 && PrimeAt(t) == n
  {
    hide Sieved;
    var r := RowFor(n);
    SievedIsPrime(n);
    InRow(n, r);
    var c :| 0 <= c < 8 && PRIMES[r][c] == n;
    t := 8 * r + c;
    assert t / 8 == r && t % 8 == c;
  }

  lemma RightRows(r: nat)
    requires r < 8
    ensures RightRow(r)
  {
    hide RightRow;
    match r {
      case 0 => Row0();
      case 1 => Row1();
      case 2 => Row2();
      case 3 => Row3();
      case 4 => Row4();
      case 5 => Row5();
      case 6 => Row6();
      case 7 => Row7();
    }
  }

  /** Section 4.2.2: constant t belongs to the prime at place t. */
  lemma CubeRoots(t: nat)
    requires t < 64
    ensures CubeRootFraction(PrimeAt(t), K256(t))
  {
    hide CubeRootFraction;
    RightRows(t / 8);
  }

  // -------------------------------------------------------------------------------------------------------
  // Square roots
  // -------------------------------------------------------------------------------------------------------

  /** The first 32 bits of the fractional part of the square root of p. */
  ghost predicate SquareRootFraction(p: nat, k: u32) {
    exists whole: nat :: SquareRoot(p * 0x1_0000_0000 * 0x1_0000_0000, whole * 0x1_0000_0000 + k as nat)
  }

  /** x is the square root of n, rounded down. */
  predicate SquareRoot(n: nat, x: nat) { x * x <= n < (x + 1) * (x + 1) }

  lemma Square(p: nat, whole: nat, k: u32)
    requires SquareRoot(p * 0x1_0000_0000 * 0x1_0000_0000, whole * 0x1_0000_0000 + k as nat)
    ensures SquareRootFraction(p, k)
  {
  }

  /** Section 5.3.3: word j of the first state belongs to the prime at place j. */
  lemma SquareRoots(j: nat)
    requires j < 8
    ensures SquareRootFraction(PrimeAt(j), Initial(Sha256)[j])
  {
    hide SquareRootFraction;
    Square(2, 1, 0x6a09e667);
    Square(3, 1, 0xbb67ae85);
    Square(5, 2, 0x3c6ef372);
    Square(7, 2, 0xa54ff53a);
    Square(11, 3, 0x510e527f);
    Square(13, 3, 0x9b05688c);
    Square(17, 4, 0x1f83d9ab);
    Square(19, 4, 0x5be0cd19);
  }

  /** The constants of SHA-1 are the square roots of 2, 3, 5 and 10 to 30 places behind the point. */
  lemma StepRoots(t: nat)
    requires t < 80
    ensures SquareRoot([2, 3, 5, 10][t / 20] * 0x1_0000_0000 * 0x1000_0000, K1(t))
  {
  }

  /** The first state of SHA-1 stored little-endian counts its digits up, down and up again. */
  lemma StartPattern()
    ensures Initial(Sha1) == [LE([0x01, 0x23, 0x45, 0x67]), LE([0x89, 0xab, 0xcd, 0xef]), LE([0xfe, 0xdc, 0xba, 0x98]),
                              LE([0x76, 0x54, 0x32, 0x10]), LE([0xf0, 0xe1, 0xd2, 0xc3])]
  {
  }
}
