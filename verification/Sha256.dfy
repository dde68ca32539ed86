// The SHA-256 compression function as FIPS 180-4 defines it: functions of section 4.1.2, constants of
// section 4.2.2, message schedule and rounds of section 6.2.2, initial value of section 5.3.3.
module Sha256 {

  function Ch(x: bv32, y: bv32, z: bv32): bv32 {
    (x & y) ^ (!x & z)
  }

  function Maj(x: bv32, y: bv32, z: bv32): bv32 {
    (x & y) ^ (x & z) ^ (y & z)
  }

  function BigSigma0(x: bv32): bv32 {
    x.RotateRight(2) ^ x.RotateRight(13) ^ x.RotateRight(22)
  }

  function BigSigma1(x: bv32): bv32 {
    x.RotateRight(6) ^ x.RotateRight(11) ^ x.RotateRight(25)
  }

  function SmallSigma0(x: bv32): bv32 {
    x.RotateRight(7) ^ x.RotateRight(18) ^ (x >> 3)
  }

  function SmallSigma1(x: bv32): bv32 {
    x.RotateRight(17) ^ x.RotateRight(19) ^ (x >> 10)
  }

  // Where each of them takes a single bit.
  lemma SigmasOfTopBit()
    ensures BigSigma0(0x8000_0000) == 0x20040200 && BigSigma1(0x8000_0000) == 0x02100040
    ensures SmallSigma0(0x8000_0000) == 0x11002000 && SmallSigma1(0x8000_0000) == 0x00205000
  {
  }

  // Addition modulo 2^32.
  function Add(x: bv32, y: bv32): bv32 {
    x + y
  }

  function Add3(x: bv32, y: bv32, z: bv32): bv32 {
    Add(Add(x, y), z)
  }

  function Add4(x: bv32, y: bv32, z: bv32, u: bv32): bv32 {
    Add(Add3(x, y, z), u)
  }

  lemma AddIsSum(x: bv32, y: bv32)
    ensures Add(x, y) == x + y
  {
  }

  lemma AddSums(x: bv32, y: bv32, z: bv32)
    ensures Add(x + y, z) == Add(x, y + z)
  {
  }

  lemma AddAssociates(x: bv32, y: bv32, z: bv32)
    ensures Add(Add(x, y), z) == Add(x, Add(y, z))
  {
    hide Add;
    AddIsSum(x, y);
    AddIsSum(y, z);
    AddSums(x, y, z);
  }

  lemma AddCommutes(x: bv32, y: bv32)
    ensures Add(x, y) == Add(y, x)
  {
  }

  lemma AddZero(x: bv32)
    ensures Add(x, 0) == x
  {
  }

  lemma SwapLast(x: bv32, y: bv32, z: bv32)
    ensures Add3(x, y, z) == Add3(x, z, y)
  {
    hide Add;
    AddAssociates(x, y, z);
    AddCommutes(y, z);
    AddAssociates(x, z, y);
  }

  lemma Rotate3(x: bv32, y: bv32, z: bv32)
    ensures Add3(x, y, z) == Add3(y, z, x)
  {
    hide Add;
    AddAssociates(x, y, z);
    AddCommutes(x, Add(y, z));
  }

  lemma Reverse4(x: bv32, y: bv32, z: bv32, u: bv32)
    ensures Add4(x, y, z, u) == Add4(u, z, y, x)
  {
    hide Add;
    AddAssociates(x, y, z);
    AddCommutes(y, z);
    AddCommutes(x, Add(z, y));
    AddCommutes(Add(Add(z, y), x), u);
    AddAssociates(u, Add(z, y), x);
    AddAssociates(u, z, y);
  }

  // The round constants.
  function K(t: nat): bv32
    requires t < 64
  {
    if t < 8 then [0x428a2f98, 0x71374491, 0xb5c0fbcf, 0xe9b5dba5, 0x3956c25b, 0x59f111f1, 0x923f82a4, 0xab1c5ed5][t]
    else if t < 16 then [0xd807aa98, 0x12835b01, 0x243185be, 0x550c7dc3, 0x72be5d74, 0x80deb1fe, 0x9bdc06a7, 0xc19bf174][t - 8]
    else if t < 24 then [0xe49b69c1, 0xefbe4786, 0x0fc19dc6, 0x240ca1cc, 0x2de92c6f, 0x4a7484aa, 0x5cb0a9dc, 0x76f988da][t - 16]
    else if t < 32 then [0x983e5152, 0xa831c66d, 0xb00327c8, 0xbf597fc7, 0xc6e00bf3, 0xd5a79147, 0x06ca6351, 0x14292967][t - 24]
    else if t < 40 then [0x27b70a85, 0x2e1b2138, 0x4d2c6dfc, 0x53380d13, 0x650a7354, 0x766a0abb, 0x81c2c92e, 0x92722c85][t - 32]
    else if t < 48 then [0xa2bfe8a1, 0xa81a664b, 0xc24b8b70, 0xc76c51a3, 0xd192e819, 0xd6990624, 0xf40e3585, 0x106aa070][t - 40]
    else if t < 56 then [0x19a4c116, 0x1e376c08, 0x2748774c, 0x34b0bcb5, 0x391c0cb3, 0x4ed8aa4a, 0x5b9cca4f, 0x682e6ff3][t - 48]
    else [0x748f82ee, 0x78a5636f, 0x84c87814, 0x8cc70208, 0x90befffa, 0xa4506ceb, 0xbef9a3f7, 0xc67178f2][t - 56]
  }

  // The working variables.
  datatype State = State(a: bv32, b: bv32, c: bv32, d: bv32, e: bv32, f: bv32, g: bv32, h: bv32)

  const INITIAL_VALUE: State := State(0x6a09e667, 0xbb67ae85, 0x3c6ef372, 0xa54ff53a,
                                     0x510e527f, 0x9b05688c, 0x1f83d9ab, 0x5be0cd19)

  // ---------- where the constants come from ----------

  // The t-th prime.
  function Prime(t: nat): int
    requires t < 64
  {
    if t < 8 then [2, 3, 5, 7, 11, 13, 17, 19][t]
    else if t < 16 then [23, 29, 31, 37, 41, 43, 47, 53][t - 8]
    else if t < 24 then [59, 61, 67, 71, 73, 79, 83, 89][t - 16]
    else if t < 32 then [97, 101, 103, 107, 109, 113, 127, 131][t - 24]
    else if t < 40 then [137, 139, 149, 151, 157, 163, 167, 173][t - 32]
    else if t < 48 then [179, 181, 191, 193, 197, 199, 211, 223][t - 40]
    else if t < 56 then [227, 229, 233, 239, 241, 251, 257, 263][t - 48]
    else [269, 271, 277, 281, 283, 293, 307, 311][t - 56]
  }

  const TWO32: int := 0x1_0000_0000

  // The cube root of p is c and k / 2^32, cut after 32 binary places.
  predicate CubeRoot(p: int, c: int, k: int) {
    var n := c * TWO32 + k;
    0 <= k < TWO32 && n * n * n <= p * TWO32 * TWO32 * TWO32 < (n + 1) * (n + 1) * (n + 1)
  }

  predicate SquareRoot(p: int, c: int, k: int) {
    var n := c * TWO32 + k;
    0 <= k < TWO32 && n * n <= p * TWO32 * TWO32 < (n + 1) * (n + 1)
  }

  // A round constant is the fractional part of the cube root of its prime.
  ghost predicate IsRootOfPrime(t: nat)
    requires t < 64
  {
    exists c: int, k: int :: CubeRoot(Prime(t), c, k) && IsWord(k, K(t))
  }

  predicate IsWord(k: int, w: bv32) {
    0 <= k < TWO32 && k as bv32 == w
  }

  lemma Roots0()
    ensures CubeRoot(2, 1, 0x428a2f98) && CubeRoot(3, 1, 0x71374491)
    ensures CubeRoot(5, 1, 0xb5c0fbcf) && CubeRoot(7, 1, 0xe9b5dba5)
  {
  }

  lemma Words0()
    ensures IsWord(0x428a2f98, K(0)) && IsWord(0x71374491, K(1))
    ensures IsWord(0xb5c0fbcf, K(2)) && IsWord(0xe9b5dba5, K(3))
  {
  }

  lemma CubeRoots0()
    ensures IsRootOfPrime(0) && IsRootOfPrime(1) && IsRootOfPrime(2) && IsRootOfPrime(3)
  {
    hide CubeRoot;
    hide IsWord;
    hide K;
    Roots0();
    Words0();
    assert Prime(0) == 2 && Prime(1) == 3 && Prime(2) == 5 && Prime(3) == 7;
  }

  lemma Roots4()
    ensures CubeRoot(11, 2, 0x3956c25b) && CubeRoot(13, 2, 0x59f111f1)
    ensures CubeRoot(17, 2, 0x923f82a4) && CubeRoot(19, 2, 0xab1c5ed5)
  {
  }

  lemma Words4()
    ensures IsWord(0x3956c25b, K(4)) && IsWord(0x59f111f1, K(5))
    ensures IsWord(0x923f82a4, K(6)) && IsWord(0xab1c5ed5, K(7))
  {
  }

  lemma CubeRoots4()
    ensures IsRootOfPrime(4) && IsRootOfPrime(5) && IsRootOfPrime(6) && IsRootOfPrime(7)
  {
    hide CubeRoot;
    hide IsWord;
    hide K;
    Roots4();
    Words4();
    assert Prime(4) == 11 && Prime(5) == 13 && Prime(6) == 17 && Prime(7) == 19;
  }

  lemma Roots8()
    ensures CubeRoot(23, 2, 0xd807aa98) && CubeRoot(29, 3, 0x12835b01)
    ensures CubeRoot(31, 3, 0x243185be) && CubeRoot(37, 3, 0x550c7dc3)
  {
  }

  lemma Words8()
    ensures IsWord(0xd807aa98, K(8)) && IsWord(0x12835b01, K(9))
    ensures IsWord(0x243185be, K(10)) && IsWord(0x550c7dc3, K(11))
  {
  }

  lemma CubeRoots8()
    ensures IsRootOfPrime(8) && IsRootOfPrime(9) && IsRootOfPrime(10) && IsRootOfPrime(11)
  {
    hide CubeRoot;
    hide IsWord;
    hide K;
    Roots8();
    Words8();
    assert Prime(8) == 23 && Prime(9) == 29 && Prime(10) == 31 && Prime(11) == 37;
  }

  lemma Roots12()
    ensures CubeRoot(41, 3, 0x72be5d74) && CubeRoot(43, 3, 0x80deb1fe)
    ensures CubeRoot(47, 3, 0x9bdc06a7) && CubeRoot(53, 3, 0xc19bf174)
  {
  }

  lemma Words12()
    ensures IsWord(0x72be5d74, K(12)) && IsWord(0x80deb1fe, K(13))
    ensures IsWord(0x9bdc06a7, K(14)) && IsWord(0xc19bf174, K(15))
  {
  }

  lemma CubeRoots12()
    ensures IsRootOfPrime(12) && IsRootOfPrime(13) && IsRootOfPrime(14) && IsRootOfPrime(15)
  {
    hide CubeRoot;
    hide IsWord;
    hide K;
    Roots12();
    Words12();
    assert Prime(12) == 41 && Prime(13) == 43 && Prime(14) == 47 && Prime(15) == 53;
  }

  lemma Roots16()
    ensures CubeRoot(59, 3, 0xe49b69c1) && CubeRoot(61, 3, 0xefbe4786)
    ensures CubeRoot(67, 4, 0x0fc19dc6) && CubeRoot(71, 4, 0x240ca1cc)
  {
  }

  lemma Words16()
    ensures IsWord(0xe49b69c1, K(16)) && IsWord(0xefbe4786, K(17))
    ensures IsWord(0x0fc19dc6, K(18)) && IsWord(0x240ca1cc, K(19))
  {
  }

  lemma CubeRoots16()
    ensures IsRootOfPrime(16) && IsRootOfPrime(17) && IsRootOfPrime(18) && IsRootOfPrime(19)
  {
    hide CubeRoot;
    hide IsWord;
    hide K;
    Roots16();
    Words16();
    assert Prime(16) == 59 && Prime(17) == 61 && Prime(18) == 67 && Prime(19) == 71;
  }

  lemma Roots20()
    ensures CubeRoot(73, 4, 0x2de92c6f) && CubeRoot(79, 4, 0x4a7484aa)
    ensures CubeRoot(83, 4, 0x5cb0a9dc) && CubeRoot(89, 4, 0x76f988da)
  {
  }

  lemma Words20()
    ensures IsWord(0x2de92c6f, K(20)) && IsWord(0x4a7484aa, K(21))
    ensures IsWord(0x5cb0a9dc, K(22)) && IsWord(0x76f988da, K(23))
  {
  }

  lemma CubeRoots20()
    ensures IsRootOfPrime(20) && IsRootOfPrime(21) && IsRootOfPrime(22) && IsRootOfPrime(23)
  {
    hide CubeRoot;
    hide IsWord;
    hide K;
    Roots20();
    Words20();
    assert Prime(20) == 73 && Prime(21) == 79 && Prime(22) == 83 && Prime(23) == 89;
  }

  lemma Roots24()
    ensures CubeRoot(97, 4, 0x983e5152) && CubeRoot(101, 4, 0xa831c66d)
    ensures CubeRoot(103, 4, 0xb00327c8) && CubeRoot(107, 4, 0xbf597fc7)
  {
  }

  lemma Words24()
    ensures IsWord(0x983e5152, K(24)) && IsWord(0xa831c66d, K(25))
    ensures IsWord(0xb00327c8, K(26)) && IsWord(0xbf597fc7, K(27))
  {
  }

  lemma CubeRoots24()
    ensures IsRootOfPrime(24) && IsRootOfPrime(25) && IsRootOfPrime(26) && IsRootOfPrime(27)
  {
    hide CubeRoot;
    hide IsWord;
    hide K;
    Roots24();
    Words24();
    assert Prime(24) == 97 && Prime(25) == 101 && Prime(26) == 103 && Prime(27) == 107;
  }

  lemma Roots28()
    ensures CubeRoot(109, 4, 0xc6e00bf3) && CubeRoot(113, 4, 0xd5a79147)
    ensures CubeRoot(127, 5, 0x06ca6351) && CubeRoot(131, 5, 0x14292967)
  {
  }

  lemma Words28()
    ensures IsWord(0xc6e00bf3, K(28)) && IsWord(0xd5a79147, K(29))
    ensures IsWord(0x06ca6351, K(30)) && IsWord(0x14292967, K(31))
  {
  }

  lemma CubeRoots28()
    ensures IsRootOfPrime(28) && IsRootOfPrime(29) && IsRootOfPrime(30) && IsRootOfPrime(31)
  {
    hide CubeRoot;
    hide IsWord;
    hide K;
    Roots28();
    Words28();
    assert Prime(28) == 109 && Prime(29) == 113 && Prime(30) == 127 && Prime(31) == 131;
  }

  lemma Roots32()
    ensures CubeRoot(137, 5, 0x27b70a85) && CubeRoot(139, 5, 0x2e1b2138)
    ensures CubeRoot(149, 5, 0x4d2c6dfc) && CubeRoot(151, 5, 0x53380d13)
  {
  }

  lemma Words32()
    ensures IsWord(0x27b70a85, K(32)) && IsWord(0x2e1b2138, K(33))
    ensures IsWord(0x4d2c6dfc, K(34)) && IsWord(0x53380d13, K(35))
  {
  }

  lemma CubeRoots32()
    ensures IsRootOfPrime(32) && IsRootOfPrime(33) && IsRootOfPrime(34) && IsRootOfPrime(35)
  {
    hide CubeRoot;
    hide IsWord;
    hide K;
    Roots32();
    Words32();
    assert Prime(32) == 137 && Prime(33) == 139 && Prime(34) == 149 && Prime(35) == 151;
  }

  lemma Roots36()
    ensures CubeRoot(157, 5, 0x650a7354) && CubeRoot(163, 5, 0x766a0abb)
    ensures CubeRoot(167, 5, 0x81c2c92e) && CubeRoot(173, 5, 0x92722c85)
  {
  }

  lemma Words36()
    ensures IsWord(0x650a7354, K(36)) && IsWord(0x766a0abb, K(37))
    ensures IsWord(0x81c2c92e, K(38)) && IsWord(0x92722c85, K(39))
  {
  }

  lemma CubeRoots36()
    ensures IsRootOfPrime(36) && IsRootOfPrime(37) && IsRootOfPrime(38) && IsRootOfPrime(39)
  {
    hide CubeRoot;
    hide IsWord;
    hide K;
    Roots36();
    Words36();
    assert Prime(36) == 157 && Prime(37) == 163 && Prime(38) == 167 && Prime(39) == 173;
  }

  lemma Roots40()
    ensures CubeRoot(179, 5, 0xa2bfe8a1) && CubeRoot(181, 5, 0xa81a664b)
    ensures CubeRoot(191, 5, 0xc24b8b70) && CubeRoot(193, 5, 0xc76c51a3)
  {
  }

  lemma Words40()
    ensures IsWord(0xa2bfe8a1, K(40)) && IsWord(0xa81a664b, K(41))
    ensures IsWord(0xc24b8b70, K(42)) && IsWord(0xc76c51a3, K(43))
  {
  }

  lemma CubeRoots40()
    ensures IsRootOfPrime(40) && IsRootOfPrime(41) && IsRootOfPrime(42) && IsRootOfPrime(43)
  {
    hide CubeRoot;
    hide IsWord;
    hide K;
    Roots40();
    Words40();
    assert Prime(40) == 179 && Prime(41) == 181 && Prime(42) == 191 && Prime(43) == 193;
  }

  lemma Roots44()
    ensures CubeRoot(197, 5, 0xd192e819) && CubeRoot(199, 5, 0xd6990624)
    ensures CubeRoot(211, 5, 0xf40e3585) && CubeRoot(223, 6, 0x106aa070)
  {
  }

  lemma Words44()
    ensures IsWord(0xd192e819, K(44)) && IsWord(0xd6990624, K(45))
    ensures IsWord(0xf40e3585, K(46)) && IsWord(0x106aa070, K(47))
  {
  }

  lemma CubeRoots44()
    ensures IsRootOfPrime(44) && IsRootOfPrime(45) && IsRootOfPrime(46) && IsRootOfPrime(47)
  {
    hide CubeRoot;
    hide IsWord;
    hide K;
    Roots44();
    Words44();
    assert Prime(44) == 197 && Prime(45) == 199 && Prime(46) == 211 && Prime(47) == 223;
  }

  lemma Roots48()
    ensures CubeRoot(227, 6, 0x19a4c116) && CubeRoot(229, 6, 0x1e376c08)
    ensures CubeRoot(233, 6, 0x2748774c) && CubeRoot(239, 6, 0x34b0bcb5)
  {
  }

  lemma Words48()
    ensures IsWord(0x19a4c116, K(48)) && IsWord(0x1e376c08, K(49))
    ensures IsWord(0x2748774c, K(50)) && IsWord(0x34b0bcb5, K(51))
  {
  }

  lemma CubeRoots48()
    ensures IsRootOfPrime(48) && IsRootOfPrime(49) && IsRootOfPrime(50) && IsRootOfPrime(51)
  {
    hide CubeRoot;
    hide IsWord;
    hide K;
    Roots48();
    Words48();
    assert Prime(48) == 227 && Prime(49) == 229 && Prime(50) == 233 && Prime(51) == 239;
  }

  lemma Roots52()
    ensures CubeRoot(241, 6, 0x391c0cb3) && CubeRoot(251, 6, 0x4ed8aa4a)
    ensures CubeRoot(257, 6, 0x5b9cca4f) && CubeRoot(263, 6, 0x682e6ff3)
  {
  }

  lemma Words52()
    ensures IsWord(0x391c0cb3, K(52)) && IsWord(0x4ed8aa4a, K(53))
    ensures IsWord(0x5b9cca4f, K(54)) && IsWord(0x682e6ff3, K(55))
  {
  }

  lemma CubeRoots52()
    ensures IsRootOfPrime(52) && IsRootOfPrime(53) && IsRootOfPrime(54) && IsRootOfPrime(55)
  {
    hide CubeRoot;
    hide IsWord;
    hide K;
    Roots52();
    Words52();
    assert Prime(52) == 241 && Prime(53) == 251 && Prime(54) == 257 && Prime(55) == 263;
  }

  lemma Roots56()
    ensures CubeRoot(269, 6, 0x748f82ee) && CubeRoot(271, 6, 0x78a5636f)
    ensures CubeRoot(277, 6, 0x84c87814) && CubeRoot(281, 6, 0x8cc70208)
  {
  }

  lemma Words56()
    ensures IsWord(0x748f82ee, K(56)) && IsWord(0x78a5636f, K(57))
    ensures IsWord(0x84c87814, K(58)) && IsWord(0x8cc70208, K(59))
  {
  }

  lemma CubeRoots56()
    ensures IsRootOfPrime(56) && IsRootOfPrime(57) && IsRootOfPrime(58) && IsRootOfPrime(59)
  {
    hide CubeRoot;
    hide IsWord;
    hide K;
    Roots56();
    Words56();
    assert Prime(56) == 269 && Prime(57) == 271 && Prime(58) == 277 && Prime(59) == 281;
  }

  lemma Roots60()
    ensures CubeRoot(283, 6, 0x90befffa) && CubeRoot(293, 6, 0xa4506ceb)
    ensures CubeRoot(307, 6, 0xbef9a3f7) && CubeRoot(311, 6, 0xc67178f2)
  {
  }

  lemma Words60()
    ensures IsWord(0x90befffa, K(60)) && IsWord(0xa4506ceb, K(61))
    ensures IsWord(0xbef9a3f7, K(62)) && IsWord(0xc67178f2, K(63))
  {
  }

  lemma CubeRoots60()
    ensures IsRootOfPrime(60) && IsRootOfPrime(61) && IsRootOfPrime(62) && IsRootOfPrime(63)
  {
    hide CubeRoot;
    hide IsWord;
    hide K;
    Roots60();
    Words60();
    assert Prime(60) == 283 && Prime(61) == 293 && Prime(62) == 307 && Prime(63) == 311;
  }

  // The round constants are those of the first 64 primes.
  lemma ConstantsAreCubeRoots(t: nat)
    requires t < 64
    ensures IsRootOfPrime(t)
  {
    hide IsRootOfPrime;
    hide K;
    hide Prime;
    hide CubeRoot;
    if t < 4 {
      CubeRoots0();
    } else if t < 8 {
      CubeRoots4();
    } else if t < 12 {
      CubeRoots8();
    } else if t < 16 {
      CubeRoots12();
    } else if t < 20 {
      CubeRoots16();
    } else if t < 24 {
      CubeRoots20();
    } else if t < 28 {
      CubeRoots24();
    } else if t < 32 {
      CubeRoots28();
    } else if t < 36 {
      CubeRoots32();
    } else if t < 40 {
      CubeRoots36();
    } else if t < 44 {
      CubeRoots40();
    } else if t < 48 {
      CubeRoots44();
    } else if t < 52 {
      CubeRoots48();
    } else if t < 56 {
      CubeRoots52();
    } else if t < 60 {
      CubeRoots56();
    } else {
      CubeRoots60();
    }
  }

  // The initial value: the square roots of the first eight.
  lemma InitialSquareRoots()
    ensures SquareRoot(Prime(0), 1, 0x6a09e667) && INITIAL_VALUE.a == 0x6a09e667
    ensures SquareRoot(Prime(1), 1, 0xbb67ae85) && INITIAL_VALUE.b == 0xbb67ae85
    ensures SquareRoot(Prime(2), 2, 0x3c6ef372) && INITIAL_VALUE.c == 0x3c6ef372
    ensures SquareRoot(Prime(3), 2, 0xa54ff53a) && INITIAL_VALUE.d == 0xa54ff53a
    ensures SquareRoot(Prime(4), 3, 0x510e527f) && INITIAL_VALUE.e == 0x510e527f
    ensures SquareRoot(Prime(5), 3, 0x9b05688c) && INITIAL_VALUE.f == 0x9b05688c
    ensures SquareRoot(Prime(6), 4, 0x1f83d9ab) && INITIAL_VALUE.g == 0x1f83d9ab
    ensures SquareRoot(Prime(7), 4, 0x5be0cd19) && INITIAL_VALUE.h == 0x5be0cd19
  {
  }

  function T1(s: State, w: bv32, k: bv32): bv32 {
    Add(Add4(s.h, BigSigma1(s.e), Ch(s.e, s.f, s.g), k), w)
  }

  function T2(s: State): bv32 {
    Add(BigSigma0(s.a), Maj(s.a, s.b, s.c))
  }

  function Round(s: State, w: bv32, k: bv32): State {
    State(Add(T1(s, w, k), T2(s)), s.a, s.b, s.c, Add(s.d, T1(s, w, k)), s.e, s.f, s.g)
  }

  // The message schedule of a 16-word block.
  function W(m: seq<bv32>, t: nat): bv32
    requires |m| == 16
  {
    if t < 16 then m[t] else Add4(SmallSigma1(W(m, t - 2)), W(m, t - 7), SmallSigma0(W(m, t - 15)), W(m, t - 16))
  }

  // The working variables after t rounds.
  function Rounds(s: State, m: seq<bv32>, t: nat): State
    requires |m| == 16 && t <= 64
  {
    if t == 0 then s else Round(Rounds(s, m, t - 1), W(m, t - 1), K(t - 1))
  }
}
