/** Where the constants of SHA-256 come from (sections 4.2.2 and 5.3.3 of FIPS 180-4): the first 32 bits of
    the fractional parts of the cube roots of the first 64 primes, and of the square roots of the first 8. */
module Constants {
  import opened Fips180

  /** The first 64 primes, eight to a row. */
  const PRIMES: seq<seq<nat>> := [
    [2, 3, 5, 7, 11, 13, 17, 19],
    [23, 29, 31, 37, 41, 43, 47, 53],
    [59, 61, 67, 71, 73, 79, 83, 89],
    [97, 101, 103, 107, 109, 113, 127, 131],
    [137, 139, 149, 151, 157, 163, 167, 173],
    [179, 181, 191, 193, 197, 199, 211, 223],
    [227, 229, 233, 239, 241, 251, 257, 263],
    [269, 271, 277, 281, 283, 293, 307, 311]]

  function Prime(t: nat): nat
  {
    if t < 64 then PRIMES[t / 8][t % 8] else 0
  }

  ghost predicate IsPrime(n: nat)
  {
    n >= 2 && forall d: nat :: 2 <= d < n ==> !Divides(d, n)
  }

  predicate Divides(d: nat, n: nat)
  {
    d > 0 && n % d == 0
  }

  /** No prime below 18 divides `n`, but for `n` itself. */
  predicate Tried(n: nat)
  {
    && (n == 2 || n % 2 != 0) && (n == 3 || n % 3 != 0) && (n == 5 || n % 5 != 0) && (n == 7 || n % 7 != 0)
    && (n == 11 || n % 11 != 0) && (n == 13 || n % 13 != 0) && (n == 17 || n % 17 != 0)
  }

  // What passes the trial, four primes at a time; each number is a case of its own.

  lemma {:induction false} From2(n: nat)
    requires 2 <= n < 11
    ensures Tried(n) <==> n in [2, 3, 5, 7]
  {
    if n < 3 {} else if n < 4 {} else if n < 5 {} else if n < 6 {} else if n < 7 {} else if n < 8 {}
    else if n < 9 {} else if n < 10 {}
  }

  lemma {:induction false} From11(n: nat)
    requires 11 <= n < 23
    ensures Tried(n) <==> n in [11, 13, 17, 19]
  {
    if n < 12 {} else if n < 13 {} else if n < 14 {} else if n < 15 {} else if n < 16 {} else if n < 17 {}
    else if n < 18 {} else if n < 19 {} else if n < 20 {} else if n < 21 {} else if n < 22 {}
  }

  lemma {:induction false} From23(n: nat)
    requires 23 <= n < 41
    ensures Tried(n) <==> n in [23, 29, 31, 37]
  {
    if n < 24 {} else if n < 25 {} else if n < 26 {} else if n < 27 {} else if n < 28 {} else if n < 29 {}
    else if n < 30 {} else if n < 31 {} else if n < 32 {} else if n < 33 {} else if n < 34 {} else if n < 35 {}
    else if n < 36 {} else if n < 37 {} else if n < 38 {} else if n < 39 {} else if n < 40 {}
  }

  lemma {:induction false} From41(n: nat)
    requires 41 <= n < 59
    ensures Tried(n) <==> n in [41, 43, 47, 53]
  {
    if n < 42 {} else if n < 43 {} else if n < 44 {} else if n < 45 {} else if n < 46 {} else if n < 47 {}
    else if n < 48 {} else if n < 49 {} else if n < 50 {} else if n < 51 {} else if n < 52 {} else if n < 53 {}
    else if n < 54 {} else if n < 55 {} else if n < 56 {} else if n < 57 {} else if n < 58 {}
  }

  lemma {:induction false} From59(n: nat)
    requires 59 <= n < 73
    ensures Tried(n) <==> n in [59, 61, 67, 71]
  {
    if n < 60 {} else if n < 61 {} else if n < 62 {} else if n < 63 {} else if n < 64 {} else if n < 65 {}
    else if n < 66 {} else if n < 67 {} else if n < 68 {} else if n < 69 {} else if n < 70 {} else if n < 71 {}
    else if n < 72 {}
  }

  lemma {:induction false} From73(n: nat)
    requires 73 <= n < 97
    ensures Tried(n) <==> n in [73, 79, 83, 89]
  {
    if n < 74 {} else if n < 75 {} else if n < 76 {} else if n < 77 {} else if n < 78 {} else if n < 79 {}
    else if n < 80 {} else if n < 81 {} else if n < 82 {} else if n < 83 {} else if n < 84 {} else if n < 85 {}
    else if n < 86 {} else if n < 87 {} else if n < 88 {} else if n < 89 {} else if n < 90 {} else if n < 91 {}
    else if n < 92 {} else if n < 93 {} else if n < 94 {} else if n < 95 {} else if n < 96 {}
  }

  lemma {:induction false} From97(n: nat)
    requires 97 <= n < 109
    ensures Tried(n) <==> n in [97, 101, 103, 107]
  {
    if n < 98 {} else if n < 99 {} else if n < 100 {} else if n < 101 {} else if n < 102 {} else if n < 103 {}
    else if n < 104 {} else if n < 105 {} else if n < 106 {} else if n < 107 {} else if n < 108 {}
  }

  lemma {:induction false} From109(n: nat)
    requires 109 <= n < 137
    ensures Tried(n) <==> n in [109, 113, 127, 131]
  {
    if n < 110 {} else if n < 111 {} else if n < 112 {} else if n < 113 {} else if n < 114 {} else if n < 115 {}
    else if n < 116 {} else if n < 117 {} else if n < 118 {} else if n < 119 {} else if n < 120 {}
    else if n < 121 {} else if n < 122 {} else if n < 123 {} else if n < 124 {} else if n < 125 {}
    else if n < 126 {} else if n < 127 {} else if n < 128 {} else if n < 129 {} else if n < 130 {}
    else if n < 131 {} else if n < 132 {} else if n < 133 {} else if n < 134 {} else if n < 135 {}
    else if n < 136 {}
  }

  lemma {:induction false} From137(n: nat)
    requires 137 <= n < 157
    ensures Tried(n) <==> n in [137, 139, 149, 151]
  {
    if n < 138 {} else if n < 139 {} else if n < 140 {} else if n < 141 {} else if n < 142 {} else if n < 143 {}
    else if n < 144 {} else if n < 145 {} else if n < 146 {} else if n < 147 {} else if n < 148 {}
    else if n < 149 {} else if n < 150 {} else if n < 151 {} else if n < 152 {} else if n < 153 {}
    else if n < 154 {} else if n < 155 {} else if n < 156 {}
  }

  lemma {:induction false} From157(n: nat)
    requires 157 <= n < 179
    ensures Tried(n) <==> n in [157, 163, 167, 173]
  {
    if n < 158 {} else if n < 159 {} else if n < 160 {} else if n < 161 {} else if n < 162 {} else if n < 163 {}
    else if n < 164 {} else if n < 165 {} else if n < 166 {} else if n < 167 {} else if n < 168 {}
    else if n < 169 {} else if n < 170 {} else if n < 171 {} else if n < 172 {} else if n < 173 {}
    else if n < 174 {} else if n < 175 {} else if n < 176 {} else if n < 177 {} else if n < 178 {}
  }

  lemma {:induction false} From179(n: nat)
    requires 179 <= n < 197
    ensures Tried(n) <==> n in [179, 181, 191, 193]
  {
    if n < 180 {} else if n < 181 {} else if n < 182 {} else if n < 183 {} else if n < 184 {} else if n < 185 {}
    else if n < 186 {} else if n < 187 {} else if n < 188 {} else if n < 189 {} else if n < 190 {}
    else if n < 191 {} else if n < 192 {} else if n < 193 {} else if n < 194 {} else if n < 195 {}
    else if n < 196 {}
  }

  lemma {:induction false} From197(n: nat)
    requires 197 <= n < 227
    ensures Tried(n) <==> n in [197, 199, 211, 223]
  {
    if n < 198 {} else if n < 199 {} else if n < 200 {} else if n < 201 {} else if n < 202 {} else if n < 203 {}
    else if n < 204 {} else if n < 205 {} else if n < 206 {} else if n < 207 {} else if n < 208 {}
    else if n < 209 {} else if n < 210 {} else if n < 211 {} else if n < 212 {} else if n < 213 {}
    else if n < 214 {} else if n < 215 {} else if n < 216 {} else if n < 217 {} else if n < 218 {}
    else if n < 219 {} else if n < 220 {} else if n < 221 {} else if n < 222 {} else if n < 223 {}
    else if n < 224 {} else if n < 225 {} else if n < 226 {}
  }

  lemma {:induction false} From227(n: nat)
    requires 227 <= n < 241
    ensures Tried(n) <==> n in [227, 229, 233, 239]
  {
    if n < 228 {} else if n < 229 {} else if n < 230 {} else if n < 231 {} else if n < 232 {} else if n < 233 {}
    else if n < 234 {} else if n < 235 {} else if n < 236 {} else if n < 237 {} else if n < 238 {}
    else if n < 239 {} else if n < 240 {}
  }

  lemma {:induction false} From241(n: nat)
    requires 241 <= n < 269
    ensures Tried(n) <==> n in [241, 251, 257, 263]
  {
    if n < 242 {} else if n < 243 {} else if n < 244 {} else if n < 245 {} else if n < 246 {} else if n < 247 {}
    else if n < 248 {} else if n < 249 {} else if n < 250 {} else if n < 251 {} else if n < 252 {}
    else if n < 253 {} else if n < 254 {} else if n < 255 {} else if n < 256 {} else if n < 257 {}
    else if n < 258 {} else if n < 259 {} else if n < 260 {} else if n < 261 {} else if n < 262 {}
    else if n < 263 {} else if n < 264 {} else if n < 265 {} else if n < 266 {} else if n < 267 {}
    else if n < 268 {}
  }

  lemma {:induction false} From269(n: nat)
    requires 269 <= n < 283
    ensures Tried(n) <==> n in [269, 271, 277, 281]
  {
    if n < 270 {} else if n < 271 {} else if n < 272 {} else if n < 273 {} else if n < 274 {} else if n < 275 {}
    else if n < 276 {} else if n < 277 {} else if n < 278 {} else if n < 279 {} else if n < 280 {}
    else if n < 281 {} else if n < 282 {}
  }

  lemma {:induction false} From283(n: nat)
    requires 283 <= n < 312
    ensures Tried(n) <==> n in [283, 293, 307, 311]
  {
    if n < 284 {} else if n < 285 {} else if n < 286 {} else if n < 287 {} else if n < 288 {} else if n < 289 {}
    else if n < 290 {} else if n < 291 {} else if n < 292 {} else if n < 293 {} else if n < 294 {}
    else if n < 295 {} else if n < 296 {} else if n < 297 {} else if n < 298 {} else if n < 299 {}
    else if n < 300 {} else if n < 301 {} else if n < 302 {} else if n < 303 {} else if n < 304 {}
    else if n < 305 {} else if n < 306 {} else if n < 307 {} else if n < 308 {} else if n < 309 {}
    else if n < 310 {} else if n < 311 {}
  }

  /** Trial division by the primes below 18 is enough for numbers below 324. */
  lemma {:induction false} TrialDivision(n: nat)
    requires 2 <= n < 324
    ensures IsPrime(n) <==> Tried(n)
  {
    forall d: nat | 2 <= d < n && Divides(d, n) ensures !Tried(n) { HasDivisor(d, n); }
    if n % 2 == 0 { assert n == 2 || Divides(2, n); }
    if n % 3 == 0 { assert n == 3 || Divides(3, n); }
    if n % 5 == 0 { assert n == 5 || Divides(5, n); }
    if n % 7 == 0 { assert n == 7 || Divides(7, n); }
    if n % 11 == 0 { assert n == 11 || Divides(11, n); }
    if n % 13 == 0 { assert n == 13 || Divides(13, n); }
    if n % 17 == 0 { assert n == 17 || Divides(17, n); }
  }

  /** One of a divisor and its cofactor is below 18. */
  lemma {:induction false} HasDivisor(d: nat, n: nat)
    requires 2 <= d < n < 324 && Divides(d, n)
    ensures !Tried(n)
  {
    var e := n / d;
    assert n == d * e;
    if d >= 18 {
      SmallCofactor(d, e);
      SmallDivisor(e, d, n);
    } else {
      SmallDivisor(d, e, n);
    }
  }

  lemma {:induction false} SmallCofactor(d: nat, e: nat)
    requires d >= 18
    ensures e >= 18 ==> d * e >= 324
  {
    if e >= 18 {
      assert d * e == 18 * e + (d - 18) * e;
      assert (d - 18) * e >= 0;
    }
  }

  lemma {:induction false} Larger(d: nat, e: nat, n: nat)
    requires d >= 2 && e >= 2 && n == d * e
    ensures n > d
  {
    assert d * e == 2 * d + d * (e - 2);
  }

  lemma {:induction false} Factor(q: nat, x: nat, e: nat, n: nat)
    requires n == q * x * e
    ensures n == q * (x * e)
  {
  }

  lemma {:induction false} AtLeast(q: nat, x: int)
    ensures x >= 1 ==> q * x >= q
    ensures x <= -1 ==> q * x <= 0 - q
  {
    assert q * (x - 1) == q * x - q && q * (x + 1) == q * x + q;
  }

  lemma {:induction false} Multiple(n: nat, q: nat, x: nat)
    requires q > 0 && n == q * x
    ensures n % q == 0
  {
    var y := x - n / q;
    assert n == q * (n / q) + n % q;
    assert q * y == n % q;
    AtLeast(q, y);
  }

  lemma {:induction false} ByPrime(q: nat, x: nat, n: nat)
    requires q in {2, 3, 5, 7, 11, 13, 17} && n == q * x && n > q
    ensures !Tried(n)
  {
    Multiple(n, q, x);
  }

  /** A number with a divisor from 2 to 17, and another factor besides, does not pass. */
  lemma {:induction false} SmallDivisor(d: nat, e: nat, n: nat)
    requires 2 <= d < 18 && e >= 2 && n == d * e
    ensures !Tried(n)
  {
    hide Tried;
    Larger(d, e, n);
    if d % 2 == 0 {
      Factor(2, d / 2, e, n);
      ByPrime(2, (d / 2) * e, n);
    } else if d % 3 == 0 {
      Factor(3, d / 3, e, n);
      ByPrime(3, (d / 3) * e, n);
    } else {
      ByPrime(d, e, n);
    }
  }

  lemma {:induction false} Small()
    ensures !IsPrime(0) && !IsPrime(1)
  {
  }

  /** The list holds exactly the primes below 312. */
  lemma {:induction false} AllPrimes(n: nat)
    requires n < 312
    ensures IsPrime(n) <==> exists r :: 0 <= r < 8 && n in PRIMES[r]
  {
    hide IsPrime, Tried;
    Small();
    if n >= 2 {
      TrialDivision(n);
      if n < 11 { From2(n); }
      else if n < 23 { From11(n); }
      else if n < 41 { From23(n); }
      else if n < 59 { From41(n); }
      else if n < 73 { From59(n); }
      else if n < 97 { From73(n); }
      else if n < 109 { From97(n); }
      else if n < 137 { From109(n); }
      else if n < 157 { From137(n); }
      else if n < 179 { From157(n); }
      else if n < 197 { From179(n); }
      else if n < 227 { From197(n); }
      else if n < 241 { From227(n); }
      else if n < 269 { From241(n); }
      else if n < 283 { From269(n); }
      else if n < 312 { From283(n); }
    }
    assert PRIMES[0] == [2, 3, 5, 7, 11, 13, 17, 19];
    assert PRIMES[1] == [23, 29, 31, 37, 41, 43, 47, 53];
    assert PRIMES[2] == [59, 61, 67, 71, 73, 79, 83, 89];
    assert PRIMES[3] == [97, 101, 103, 107, 109, 113, 127, 131];
    assert PRIMES[4] == [137, 139, 149, 151, 157, 163, 167, 173];
    assert PRIMES[5] == [179, 181, 191, 193, 197, 199, 211, 223];
    assert PRIMES[6] == [227, 229, 233, 239, 241, 251, 257, 263];
    assert PRIMES[7] == [269, 271, 277, 281, 283, 293, 307, 311];
  }

  // ------------------------------------------------------------------ roots

  const TWO32: nat := 0x1_0000_0000

  function Square(x: nat): nat
  {
    x * x
  }

  function Cube(x: nat): nat
  {
    x * x * x
  }

  /** `w` holds the first 32 bits after the point of the cube root of `p`, whose whole part is `m`. */
  ghost predicate CubeRoot(p: nat, m: nat, w: Word)
  {
    CubeBits(p, m, w as nat)
  }

  predicate CubeBits(p: nat, m: nat, k: nat)
  {
    k < TWO32 && Cube(m * TWO32 + k) <= p * TWO32 * TWO32 * TWO32 < Cube(m * TWO32 + k + 1)
  }

  /** The same for the square root of `p`. */
  ghost predicate SquareRoot(p: nat, m: nat, w: Word)
  {
    SquareBits(p, m, w as nat)
  }

  predicate SquareBits(p: nat, m: nat, k: nat)
  {
    k < TWO32 && Square(m * TWO32 + k) <= p * TWO32 * TWO32 < Square(m * TWO32 + k + 1)
  }

  lemma {:induction false} FromLiteral(p: nat, m: nat, k: nat, w: Word)
    requires CubeBits(p, m, k) && w as nat == k
    ensures exists m: nat :: CubeRoot(p, m, w)
  {
    assert CubeRoot(p, m, w);
  }

  /** The constants of the rounds. */
  lemma {:induction false} RoundConstants(t: nat)
    requires t < 64
    ensures exists m: nat :: CubeRoot(Prime(t), m, K(t))
  {
    var r, c := t / 8, t % 8;
    assert Prime(t) == PRIMES[r][c] && K(t) == K256[r][c];
    if r == 0 { FirstConstants(c); }
    else if r == 1 { SecondConstants(c); }
    else if r == 2 { ThirdConstants(c); }
    else if r == 3 { FourthConstants(c); }
    else if r == 4 { FifthConstants(c); }
    else if r == 5 { SixthConstants(c); }
    else if r == 6 { SeventhConstants(c); }
    else { EighthConstants(c); }
  }

  lemma {:induction false} FirstConstants(c: nat)
    requires c < 8
    ensures exists m: nat :: CubeRoot(PRIMES[0][c], m, K256[0][c])
  {
    if c == 0 { FromLiteral(PRIMES[0][0], 1, 0x428a2f98, K256[0][0]); }
    else if c == 1 { FromLiteral(PRIMES[0][1], 1, 0x71374491, K256[0][1]); }
    else if c == 2 { FromLiteral(PRIMES[0][2], 1, 0xb5c0fbcf, K256[0][2]); }
    else if c == 3 { FromLiteral(PRIMES[0][3], 1, 0xe9b5dba5, K256[0][3]); }
    else if c == 4 { FromLiteral(PRIMES[0][4], 2, 0x3956c25b, K256[0][4]); }
    else if c == 5 { FromLiteral(PRIMES[0][5], 2, 0x59f111f1, K256[0][5]); }
    else if c == 6 { FromLiteral(PRIMES[0][6], 2, 0x923f82a4, K256[0][6]); }
    else { FromLiteral(PRIMES[0][7], 2, 0xab1c5ed5, K256[0][7]); }
  }

  lemma {:induction false} SecondConstants(c: nat)
    requires c < 8
    ensures exists m: nat :: CubeRoot(PRIMES[1][c], m, K256[1][c])
  {
    if c == 0 { FromLiteral(PRIMES[1][0], 2, 0xd807aa98, K256[1][0]); }
    else if c == 1 { FromLiteral(PRIMES[1][1], 3, 0x12835b01, K256[1][1]); }
    else if c == 2 { FromLiteral(PRIMES[1][2], 3, 0x243185be, K256[1][2]); }
    else if c == 3 { FromLiteral(PRIMES[1][3], 3, 0x550c7dc3, K256[1][3]); }
    else if c == 4 { FromLiteral(PRIMES[1][4], 3, 0x72be5d74, K256[1][4]); }
    else if c == 5 { FromLiteral(PRIMES[1][5], 3, 0x80deb1fe, K256[1][5]); }
    else if c == 6 { FromLiteral(PRIMES[1][6], 3, 0x9bdc06a7, K256[1][6]); }
    else { FromLiteral(PRIMES[1][7], 3, 0xc19bf174, K256[1][7]); }
  }

  lemma {:induction false} ThirdConstants(c: nat)
    requires c < 8
    ensures exists m: nat :: CubeRoot(PRIMES[2][c], m, K256[2][c])
  {
    if c == 0 { FromLiteral(PRIMES[2][0], 3, 0xe49b69c1, K256[2][0]); }
    else if c == 1 { FromLiteral(PRIMES[2][1], 3, 0xefbe4786, K256[2][1]); }
    else if c == 2 { FromLiteral(PRIMES[2][2], 4, 0x0fc19dc6, K256[2][2]); }
    else if c == 3 { FromLiteral(PRIMES[2][3], 4, 0x240ca1cc, K256[2][3]); }
    else if c == 4 { FromLiteral(PRIMES[2][4], 4, 0x2de92c6f, K256[2][4]); }
    else if c == 5 { FromLiteral(PRIMES[2][5], 4, 0x4a7484aa, K256[2][5]); }
    else if c == 6 { FromLiteral(PRIMES[2][6], 4, 0x5cb0a9dc, K256[2][6]); }
    else { FromLiteral(PRIMES[2][7], 4, 0x76f988da, K256[2][7]); }
  }

  lemma {:induction false} FourthConstants(c: nat)
    requires c < 8
    ensures exists m: nat :: CubeRoot(PRIMES[3][c], m, K256[3][c])
  {
    if c == 0 { FromLiteral(PRIMES[3][0], 4, 0x983e5152, K256[3][0]); }
    else if c == 1 { FromLiteral(PRIMES[3][1], 4, 0xa831c66d, K256[3][1]); }
    else if c == 2 { FromLiteral(PRIMES[3][2], 4, 0xb00327c8, K256[3][2]); }
    else if c == 3 { FromLiteral(PRIMES[3][3], 4, 0xbf597fc7, K256[3][3]); }
    else if c == 4 { FromLiteral(PRIMES[3][4], 4, 0xc6e00bf3, K256[3][4]); }
    else if c == 5 { FromLiteral(PRIMES[3][5], 4, 0xd5a79147, K256[3][5]); }
    else if c == 6 { FromLiteral(PRIMES[3][6], 5, 0x06ca6351, K256[3][6]); }
    else { FromLiteral(PRIMES[3][7], 5, 0x14292967, K256[3][7]); }
  }

  lemma {:induction false} FifthConstants(c: nat)
    requires c < 8
    ensures exists m: nat :: CubeRoot(PRIMES[4][c], m, K256[4][c])
  {
    if c == 0 { FromLiteral(PRIMES[4][0], 5, 0x27b70a85, K256[4][0]); }
    else if c == 1 { FromLiteral(PRIMES[4][1], 5, 0x2e1b2138, K256[4][1]); }
    else if c == 2 { FromLiteral(PRIMES[4][2], 5, 0x4d2c6dfc, K256[4][2]); }
    else if c == 3 { FromLiteral(PRIMES[4][3], 5, 0x53380d13, K256[4][3]); }
    else if c == 4 { FromLiteral(PRIMES[4][4], 5, 0x650a7354, K256[4][4]); }
    else if c == 5 { FromLiteral(PRIMES[4][5], 5, 0x766a0abb, K256[4][5]); }
    else if c == 6 { FromLiteral(PRIMES[4][6], 5, 0x81c2c92e, K256[4][6]); }
    else { FromLiteral(PRIMES[4][7], 5, 0x92722c85, K256[4][7]); }
  }

  lemma {:induction false} SixthConstants(c: nat)
    requires c < 8
    ensures exists m: nat :: CubeRoot(PRIMES[5][c], m, K256[5][c])
  {
    if c == 0 { FromLiteral(PRIMES[5][0], 5, 0xa2bfe8a1, K256[5][0]); }
    else if c == 1 { FromLiteral(PRIMES[5][1], 5, 0xa81a664b, K256[5][1]); }
    else if c == 2 { FromLiteral(PRIMES[5][2], 5, 0xc24b8b70, K256[5][2]); }
    else if c == 3 { FromLiteral(PRIMES[5][3], 5, 0xc76c51a3, K256[5][3]); }
    else if c == 4 { FromLiteral(PRIMES[5][4], 5, 0xd192e819, K256[5][4]); }
    else if c == 5 { FromLiteral(PRIMES[5][5], 5, 0xd6990624, K256[5][5]); }
    else if c == 6 { FromLiteral(PRIMES[5][6], 5, 0xf40e3585, K256[5][6]); }
    else { FromLiteral(PRIMES[5][7], 6, 0x106aa070, K256[5][7]); }
  }

  lemma {:induction false} SeventhConstants(c: nat)
    requires c < 8
    ensures exists m: nat :: CubeRoot(PRIMES[6][c], m, K256[6][c])
  {
    if c == 0 { FromLiteral(PRIMES[6][0], 6, 0x19a4c116, K256[6][0]); }
    else if c == 1 { FromLiteral(PRIMES[6][1], 6, 0x1e376c08, K256[6][1]); }
    else if c == 2 { FromLiteral(PRIMES[6][2], 6, 0x2748774c, K256[6][2]); }
    else if c == 3 { FromLiteral(PRIMES[6][3], 6, 0x34b0bcb5, K256[6][3]); }
    else if c == 4 { FromLiteral(PRIMES[6][4], 6, 0x391c0cb3, K256[6][4]); }
    else if c == 5 { FromLiteral(PRIMES[6][5], 6, 0x4ed8aa4a, K256[6][5]); }
    else if c == 6 { FromLiteral(PRIMES[6][6], 6, 0x5b9cca4f, K256[6][6]); }
    else { FromLiteral(PRIMES[6][7], 6, 0x682e6ff3, K256[6][7]); }
  }

  lemma {:induction false} EighthConstants(c: nat)
    requires c < 8
    ensures exists m: nat :: CubeRoot(PRIMES[7][c], m, K256[7][c])
  {
    if c == 0 { FromLiteral(PRIMES[7][0], 6, 0x748f82ee, K256[7][0]); }
    else if c == 1 { FromLiteral(PRIMES[7][1], 6, 0x78a5636f, K256[7][1]); }
    else if c == 2 { FromLiteral(PRIMES[7][2], 6, 0x84c87814, K256[7][2]); }
    else if c == 3 { FromLiteral(PRIMES[7][3], 6, 0x8cc70208, K256[7][3]); }
    else if c == 4 { FromLiteral(PRIMES[7][4], 6, 0x90befffa, K256[7][4]); }
    else if c == 5 { FromLiteral(PRIMES[7][5], 6, 0xa4506ceb, K256[7][5]); }
    else if c == 6 { FromLiteral(PRIMES[7][6], 6, 0xbef9a3f7, K256[7][6]); }
    else { FromLiteral(PRIMES[7][7], 6, 0xc67178f2, K256[7][7]); }
  }

  lemma {:induction false} SquareLiteral(p: nat, m: nat, k: nat, w: Word)
    requires SquareBits(p, m, k) && w as nat == k
    ensures exists m: nat :: SquareRoot(p, m, w)
  {
    assert SquareRoot(p, m, w);
  }

  /** The initial hash value of SHA-256. */
  lemma {:induction false} InitialValue(c: nat)
    requires c < 8
    ensures exists m: nat :: SquareRoot(Prime(c), m, Initial(Sha256)[c])
  {
    if c == 0 { SquareLiteral(Prime(0), 1, 0x6a09e667, Initial(Sha256)[0]); }
    else if c == 1 { SquareLiteral(Prime(1), 1, 0xbb67ae85, Initial(Sha256)[1]); }
    else if c == 2 { SquareLiteral(Prime(2), 2, 0x3c6ef372, Initial(Sha256)[2]); }
    else if c == 3 { SquareLiteral(Prime(3), 2, 0xa54ff53a, Initial(Sha256)[3]); }
    else if c == 4 { SquareLiteral(Prime(4), 3, 0x510e527f, Initial(Sha256)[4]); }
    else if c == 5 { SquareLiteral(Prime(5), 3, 0x9b05688c, Initial(Sha256)[5]); }
    else if c == 6 { SquareLiteral(Prime(6), 4, 0x1f83d9ab, Initial(Sha256)[6]); }
    else { SquareLiteral(Prime(7), 4, 0x5be0cd19, Initial(Sha256)[7]); }
  }
}
