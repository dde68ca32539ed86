// precalc_hash: the parts of the two SHA-256 computations over a block header that do not depend on the
// nonce, evaluated ahead of time.
module Precalc {
  import opened Sha256

  // ---------- the macros of findnonce.c ----------

  // The R macro reassigns d and h; rotate(x, y) is (x << y) | (x >> (32 - y)).
  function R(a: bv32, b: bv32, c: bv32, d: bv32, e: bv32, f: bv32, g: bv32, h: bv32, w: bv32, k: bv32): (bv32, bv32) {
    var h1 := Add(Add4(h, RotateE(e), Choose(e, f, g), k), w);
    (Add(d, h1), Add3(h1, RotateA(a), Majority(a, b, c)))
  }

  function Choose(e: bv32, f: bv32, g: bv32): bv32 {
    g ^ (e & (f ^ g))
  }

  function Majority(a: bv32, b: bv32, c: bv32): bv32 {
    (a & b) | (c & (a | b))
  }

  function RotateE(e: bv32): bv32 {
    ((e << 26) | (e >> 6)) ^ ((e << 21) | (e >> 11)) ^ ((e << 7) | (e >> 25))
  }

  function RotateA(a: bv32): bv32 {
    ((a << 30) | (a >> 2)) ^ ((a << 19) | (a >> 13)) ^ ((a << 10) | (a >> 22))
  }

  lemma ChBits(x: bv32, y: bv32, z: bv32)
    ensures (x & y) ^ (!x & z) == z ^ (x & (y ^ z))
  {
  }

  lemma ChForm(x: bv32, y: bv32, z: bv32)
    ensures Choose(x, y, z) == Ch(x, y, z)
  {
    ChBits(x, y, z);
  }

  lemma MajBits(x: bv32, y: bv32, z: bv32)
    ensures (x & y) ^ (x & z) ^ (y & z) == (x & y) | (z & (x | y))
  {
  }

  lemma MajForm(x: bv32, y: bv32, z: bv32)
    ensures Majority(x, y, z) == Maj(x, y, z)
  {
    MajBits(x, y, z);
  }

  lemma RotateForms(x: bv32)
    ensures RotateE(x) == BigSigma1(x)
    ensures RotateA(x) == BigSigma0(x)
  {
  }

  // The rotr combinations of precalc_hash; rotr(x, y) is (x >> y) | (x << (32 - y)).
  function Mix0(x: bv32): bv32 {
    ((x >> 7) | (x << 25)) ^ ((x >> 18) | (x << 14)) ^ (x >> 3)
  }

  function Mix1(x: bv32): bv32 {
    ((x >> 17) | (x << 15)) ^ ((x >> 19) | (x << 13)) ^ (x >> 10)
  }

  function Mix1Swapped(x: bv32): bv32 {
    ((x >> 19) | (x << 13)) ^ ((x >> 17) | (x << 15)) ^ (x >> 10)
  }

  function Fold0(x: bv32): bv32 {
    ((x >> 2) | (x << 30)) ^ ((x >> 13) | (x << 19)) ^ ((x >> 22) | (x << 10))
  }

  function Fold1(x: bv32): bv32 {
    ((x >> 6) | (x << 26)) ^ ((x >> 11) | (x << 21)) ^ ((x >> 25) | (x << 7))
  }

  lemma MixForms(x: bv32)
    ensures Mix0(x) == SmallSigma0(x)
    ensures Mix1(x) == Mix1Swapped(x) == SmallSigma1(x)
  {
  }

  lemma FoldForms(x: bv32)
    ensures Fold0(x) == BigSigma0(x)
    ensures Fold1(x) == BigSigma1(x)
  {
  }

  // (x + y) + z and (x + y) + z + u, nested as the fields are.
  lemma Nest(x: bv32, y: bv32, z: bv32, u: bv32)
    ensures Add3(x, y, z) == Add(Add(x, y), z)
    ensures Add4(x, y, z, u) == Add3(Add(x, y), z, u)
  {
  }

  lemma Swap(x: bv32, y: bv32, z: bv32)
    ensures Add(Add(x, y), z) == Add(Add(x, z), y)
  {
    hide Add;
    SwapLast(x, y, z);
  }

  function Subtract(x: bv32, y: bv32): bv32 {
    x - y
  }

  // (a - t) + ((v + t) + n) == (v + a) + n
  lemma Difference(a: bv32, t: bv32, v: bv32, n: bv32)
    ensures Add(Subtract(a, t), Add(Add(v, t), n)) == Add(Add(v, a), n)
  {
    hide Add;
    hide Subtract;
    SubtractAdd(a, t);
    AddAssociates(v, t, n);
    AddCommutes(v, Add(t, n));
    AddAssociates(t, n, v);
    AddAssociates(Subtract(a, t), t, Add(n, v));
    AddCommutes(n, v);
    AddAssociates(a, v, n);
    AddCommutes(a, v);
  }

  lemma SubtractAdd(a: bv32, t: bv32)
    ensures Add(Subtract(a, t), t) == a
  {
    hide Add;
    hide Subtract;
    SubtractIsDifference(a, t);
    AddBack(a, t);
  }

  lemma SubtractIsDifference(a: bv32, t: bv32)
    ensures Subtract(a, t) == a - t
  {
  }

  lemma AddBack(a: bv32, t: bv32)
    ensures Add(a - t, t) == a
  {
  }

  // One use of R is one round, with the variables renamed instead of moved.
  lemma RIsRound(s: State, w: bv32, k: bv32)
    ensures var (d, h) := R(s.a, s.b, s.c, s.d, s.e, s.f, s.g, s.h, w, k);
            Round(s, w, k) == State(h, s.a, s.b, s.c, d, s.e, s.f, s.g)
  {
    hide Add;
    hide BigSigma0;
    hide BigSigma1;
    hide Ch;
    hide Maj;
    hide Choose;
    hide Majority;
    hide RotateE;
    hide RotateA;
    ChForm(s.e, s.f, s.g);
    MajForm(s.a, s.b, s.c);
    RotateForms(s.e);
    RotateForms(s.a);
    AddAssociates(T1(s, w, k), BigSigma0(s.a), Maj(s.a, s.b, s.c));
  }

  // ---------- the two messages ----------

  // The second 64-byte block of a padded 80-byte header: three header words, the nonce, padding.
  function HeaderTail(data: seq<bv32>, nonce: bv32): (m: seq<bv32>)
    requires |data| >= 3
    ensures |m| == 16
  {
    [data[0], data[1], data[2], nonce, 0x8000_0000, 0, 0, 0, 0, 0, 0, 0, 0, 0, 0, 0x280]
  }

  // The block of the second hash: the digest of the first, padded.  The digest adds the midstate to the
  // working variables x left by round 64.
  function DigestBlock(mid: State, x: State): (m: seq<bv32>)
    ensures |m| == 16
  {
    [Add(mid.a, x.a), Add(mid.b, x.b), Add(mid.c, x.c), Add(mid.d, x.d),
     Add(mid.e, x.e), Add(mid.f, x.f), Add(mid.g, x.g), Add(mid.h, x.h),
     0x8000_0000, 0, 0, 0, 0, 0, 0, 0x100]
  }

  // What T1 of round t adds besides the Sigma and Ch terms.
  function RoundInput(s: State, m: seq<bv32>, t: nat): bv32
    requires |m| == 16 && t < 64
  {
    Add3(Rounds(s, m, t).h, K(t), W(m, t))
  }

  // ---------- the message schedule ----------

  lemma EarlyWords(data: seq<bv32>, nonce: bv32)
    requires |data| >= 3
    ensures var m := HeaderTail(data, nonce);
            && W(m, 16) == Add(data[0], SmallSigma0(data[1]))
            && W(m, 17) == Add3(data[1], SmallSigma0(data[2]), 0x01100000)
            && W(m, 18) == Add3(data[2], SmallSigma1(W(m, 16)), SmallSigma0(nonce))
            && W(m, 19) == Add3(0x11002000, SmallSigma1(W(m, 17)), nonce)
  {
    hide SmallSigma0;
    hide SmallSigma1;
    hide W;
    hide Add;
    hide Add3;
    hide Add4;
    var m := HeaderTail(data, nonce);
    SigmaConstants();
    forall t: nat | t < 16
      ensures W(m, t) == m[t]
    {
      ScheduleStart(m, t);
    }
    ScheduleStep(m, 16);
    DropZeros(data[0], SmallSigma0(data[1]), 0);
    ScheduleStep(m, 17);
    DropZeros(data[1], SmallSigma0(data[2]), 0x01100000);
    ScheduleStep(m, 18);
    DropZeros(data[2], SmallSigma0(nonce), SmallSigma1(W(m, 16)));
    SwapLast(data[2], SmallSigma1(W(m, 16)), SmallSigma0(nonce));
    ScheduleStep(m, 19);
    DropZeros(nonce, 0x11002000, SmallSigma1(W(m, 17)));
    Rotate3(nonce, 0x11002000, SmallSigma1(W(m, 17)));
  }

  lemma LateWords(data: seq<bv32>, nonce: bv32)
    requires |data| >= 3
    ensures var m := HeaderTail(data, nonce);
            && W(m, 31) == Add4(0x280, SmallSigma0(W(m, 16)), W(m, 24), SmallSigma1(W(m, 29)))
            && W(m, 32) == Add4(W(m, 16), SmallSigma0(W(m, 17)), W(m, 25), SmallSigma1(W(m, 30)))
  {
    hide SmallSigma0;
    hide SmallSigma1;
    hide W;
    hide Add4;
    var m := HeaderTail(data, nonce);
    ScheduleStart(m, 15);
    ScheduleStep(m, 31);
    Reverse4(SmallSigma1(W(m, 29)), W(m, 24), SmallSigma0(W(m, 16)), 0x280);
    ScheduleStep(m, 32);
    Reverse4(SmallSigma1(W(m, 30)), W(m, 25), SmallSigma0(W(m, 17)), W(m, 16));
  }

  lemma DropZeros(x: bv32, y: bv32, z: bv32)
    ensures Add4(z, 0, y, x) == Add3(x, y, z)
    ensures Add3(x, y, 0) == Add(x, y)
  {
    hide Add;
    AddZero(z);
    AddZero(Add(x, y));
    Rotate3(z, y, x);
    AddCommutes(y, x);
  }

  lemma SigmaConstants()
    ensures SmallSigma1(0x280) == 0x01100000 && SmallSigma0(0x8000_0000) == 0x11002000
    ensures SmallSigma0(0) == 0 && SmallSigma1(0) == 0
  {
  }

  lemma ScheduleStart(m: seq<bv32>, t: nat)
    requires |m| == 16 && t < 16
    ensures W(m, t) == m[t]
  {
  }

  lemma ScheduleStep(m: seq<bv32>, t: nat)
    requires |m| == 16 && t >= 16
    ensures W(m, t) == Add4(SmallSigma1(W(m, t - 2)), W(m, t - 7), SmallSigma0(W(m, t - 15)), W(m, t - 16))
  {
    hide SmallSigma0;
    hide SmallSigma1;
    hide Add;
    hide Add4;
  }

  // ---------- the rounds of the first hash ----------

  lemma ThreeRounds(mid: State, data: seq<bv32>, nonce: bv32, s1: State, s2: State, s3: State)
    requires |data| >= 3
    requires s1 == Round(mid, data[0], K(0)) && s2 == Round(s1, data[1], K(1)) && s3 == Round(s2, data[2], K(2))
    ensures Rounds(mid, HeaderTail(data, nonce), 3) == s3
  {
    hide Round;
    var m := HeaderTail(data, nonce);
    assert Rounds(mid, m, 1) == s1;
    assert Rounds(mid, m, 2) == s2;
  }

  lemma RoundsStep(s: State, m: seq<bv32>, t: nat)
    requires |m| == 16 && t < 64
    ensures Rounds(s, m, t + 1) == Round(Rounds(s, m, t), W(m, t), K(t))
  {
    hide Round;
    hide W;
    hide K;
  }

  // The nonce enters the fourth round only as a summand.
  lemma FourthRound(s: State, nonce: bv32, v: bv32)
    requires v == Add4(s.h, BigSigma1(s.e), Ch(s.e, s.f, s.g), K(3))
    ensures Round(s, nonce, K(3)) == State(Add(Add(v, T2(s)), nonce), s.a, s.b, s.c,
                                           Add(Add(v, s.d), nonce), s.e, s.f, s.g)
  {
    hide Add;
    hide Add4;
    hide T2;
    hide BigSigma1;
    hide Ch;
    SwapLast(v, nonce, T2(s));
    AddCommutes(s.d, Add(v, nonce));
    SwapLast(v, nonce, s.d);
  }

  // What the rounds after the fourth take in.
  lemma LaterInputs(mid: State, data: seq<bv32>, nonce: bv32, s: State, w16: bv32, w17: bv32)
    requires |data| >= 3 && Rounds(mid, HeaderTail(data, nonce), 4) == s
    requires W(HeaderTail(data, nonce), 16) == w16 && W(HeaderTail(data, nonce), 17) == w17
    ensures var m := HeaderTail(data, nonce);
            && RoundInput(mid, m, 4) == Add(s.h, 0xb956c25b)
            && RoundInput(mid, m, 5) == Add(s.g, K(5))
            && RoundInput(mid, m, 6) == Add(s.f, K(6))
            && RoundInput(mid, m, 7) == Add(s.e, K(7))
            && RoundInput(mid, m, 16) == Add(Rounds(mid, m, 16).h, Add(w16, K(16)))
            && RoundInput(mid, m, 17) == Add(Rounds(mid, m, 17).h, Add(w17, K(17)))
  {
    hide Add;
    hide W;
    hide K;
    hide Rounds;
    hide RoundInput;
    PaddingWords(data, nonce);
    hide HeaderTail;
    var m := HeaderTail(data, nonce);
    NextRound(mid, m, 4);
    NextRound(mid, m, 5);
    NextRound(mid, m, 6);
    FirstPaddingInput(mid, m);
    ZeroInput(mid, m, 5);
    ZeroInput(mid, m, 6);
    ZeroInput(mid, m, 7);
    InputSwaps(mid, m, 16);
    InputSwaps(mid, m, 17);
  }

  lemma PaddingWords(data: seq<bv32>, nonce: bv32)
    requires |data| >= 3
    ensures var m := HeaderTail(data, nonce);
            W(m, 4) == 0x8000_0000 && W(m, 5) == 0 && W(m, 6) == 0 && W(m, 7) == 0
  {
    hide W;
    var m := HeaderTail(data, nonce);
    ScheduleStart(m, 4);
    ScheduleStart(m, 5);
    ScheduleStart(m, 6);
    ScheduleStart(m, 7);
  }

  lemma FirstPaddingInput(s: State, m: seq<bv32>)
    requires |m| == 16 && W(m, 4) == 0x8000_0000
    ensures RoundInput(s, m, 4) == Add(Rounds(s, m, 4).h, 0xb956c25b)
  {
    hide Add;
    hide W;
    hide K;
    hide Rounds;
    AddAssociates(Rounds(s, m, 4).h, K(4), 0x8000_0000);
    InputConstants();
  }

  lemma ZeroInput(s: State, m: seq<bv32>, t: nat)
    requires |m| == 16 && t < 64 && W(m, t) == 0
    ensures RoundInput(s, m, t) == Add(Rounds(s, m, t).h, K(t))
  {
    hide Add;
    hide W;
    hide K;
    hide Rounds;
    AddZero(Add(Rounds(s, m, t).h, K(t)));
  }

  lemma InputSwaps(s: State, m: seq<bv32>, t: nat)
    requires |m| == 16 && t < 64
    ensures RoundInput(s, m, t) == Add(Rounds(s, m, t).h, Add(W(m, t), K(t)))
  {
    hide Add;
    hide W;
    hide K;
    hide Rounds;
    AddAssociates(Rounds(s, m, t).h, K(t), W(m, t));
    AddCommutes(K(t), W(m, t));
  }

  lemma NextRound(s: State, m: seq<bv32>, t: nat)
    requires |m| == 16 && t < 64
    ensures var r := Rounds(s, m, t);
            Rounds(s, m, t + 1).f == r.e && Rounds(s, m, t + 1).g == r.f && Rounds(s, m, t + 1).h == r.g
  {
  }

  // ---------- the first rounds of the second hash ----------

  lemma InitialRound(w: bv32)
    ensures Round(INITIAL_VALUE, w, K(0)).e == Add(0x98c7e2a2, w)
    ensures Round(INITIAL_VALUE, w, K(0)).a == Add(0xfc08884d, w)
  {
    var c := Add4(INITIAL_VALUE.h, BigSigma1(INITIAL_VALUE.e),
                  Ch(INITIAL_VALUE.e, INITIAL_VALUE.f, INITIAL_VALUE.g), K(0));
    InitialConstants(c);
    hide Add;
    hide Add4;
    hide T2;
    AddAssociates(INITIAL_VALUE.d, c, w);
    SwapLast(c, w, T2(INITIAL_VALUE));
  }

  // The constants of the source are those of the first round on the initial value.
  lemma InitialConstants(c: bv32)
    requires c == Add4(INITIAL_VALUE.h, BigSigma1(INITIAL_VALUE.e),
                       Ch(INITIAL_VALUE.e, INITIAL_VALUE.f, INITIAL_VALUE.g), K(0))
    ensures Add(INITIAL_VALUE.d, c) == 0x98c7e2a2 && Add(c, T2(INITIAL_VALUE)) == 0xfc08884d
  {
    InitialSigmas();
    RoundConstants();
    hide BigSigma0;
    hide BigSigma1;
    hide Ch;
    hide Maj;
    assert Add(0x5be0cd19, 0x3587272b) == 0x9167f444;
    assert Add(0x9167f444, 0x1f85c98c) == 0xb0edbdd0;
    assert c == 0xf377ed68;
    assert T2(INITIAL_VALUE) == Add(0xce20b47e, 0x3a6fe667) == 0x08909ae5;
  }

  lemma InitialSigmas()
    ensures BigSigma1(0x510e527f) == 0x3587272b && Ch(0x510e527f, 0x9b05688c, 0x1f83d9ab) == 0x1f85c98c
    ensures BigSigma0(0x6a09e667) == 0xce20b47e && Maj(0x6a09e667, 0xbb67ae85, 0x3c6ef372) == 0x3a6fe667
  {
  }

  lemma RoundConstants()
    ensures K(0) == 0x428a2f98 && K(1) == 0x71374491 && K(2) == 0xb5c0fbcf && K(3) == 0xe9b5dba5
    ensures K(4) == 0x3956c25b
  {
  }

  lemma InputConstants()
    ensures Add(K(4), 0x8000_0000) == 0xb956c25b
    ensures Add(0x1f83d9ab, K(1)) == 0x90bb1e3c && Add(0x9b05688c, K(2)) == 0x50c6645b
    ensures Add(0x510e527f, K(3)) == 0x3ac42e24
  {
    RoundConstants();
    assert Add(0x3956c25b, 0x8000_0000) == 0xb956c25b;
    assert Add(0x1f83d9ab, 0x71374491) == 0x90bb1e3c;
    assert Add(0x9b05688c, 0xb5c0fbcf) == 0x50c6645b;
    assert Add(0x510e527f, 0xe9b5dba5) == 0x3ac42e24;
  }

  // a + (m + x) == (m + a) + x
  lemma Pull(a: bv32, m: bv32, x: bv32)
    ensures Add(a, Add(m, x)) == Add(Add(m, a), x)
  {
    hide Add;
    AddAssociates(a, m, x);
    AddCommutes(a, m);
  }

  lemma SecondHashInputs(mid: State, x: State)
    ensures var m := DigestBlock(mid, x);
            && Rounds(INITIAL_VALUE, m, 1).e == Add(Add(mid.a, 0x98c7e2a2), x.a)
            && Rounds(INITIAL_VALUE, m, 1).a == Add(Add(mid.a, 0xfc08884d), x.a)
            && RoundInput(INITIAL_VALUE, m, 1) == Add(Add(mid.b, 0x90bb1e3c), x.b)
            && RoundInput(INITIAL_VALUE, m, 2) == Add(Add(mid.c, 0x50c6645b), x.c)
            && RoundInput(INITIAL_VALUE, m, 3) == Add(Add(mid.d, 0x3ac42e24), x.d)
  {
    hide Add;
    hide Rounds;
    hide RoundInput;
    hide K;
    var m := DigestBlock(mid, x);
    LowDigestWords(mid, x);
    hide DigestBlock;
    RoundsZero(m);
    FirstOfSum(m, mid.a, x.a);
    NextRound(INITIAL_VALUE, m, 0);
    NextRound(INITIAL_VALUE, m, 1);
    NextRound(INITIAL_VALUE, m, 2);
    InputConstants();
    InputOfKnown(m, 1, 0x1f83d9ab, mid.b, x.b);
    InputOfKnown(m, 2, 0x9b05688c, mid.c, x.c);
    InputOfKnown(m, 3, 0x510e527f, mid.d, x.d);
  }

  // The first round of the second hash.
  lemma FirstOfSum(m: seq<bv32>, y: bv32, x: bv32)
    requires |m| == 16 && m[0] == Add(y, x)
    ensures Rounds(INITIAL_VALUE, m, 1).e == Add(Add(y, 0x98c7e2a2), x)
    ensures Rounds(INITIAL_VALUE, m, 1).a == Add(Add(y, 0xfc08884d), x)
  {
    hide Add;
    hide Round;
    hide Rounds;
    hide W;
    hide K;
    RoundsZero(m);
    RoundsStep(INITIAL_VALUE, m, 0);
    ScheduleStart(m, 0);
    InitialRound(Add(y, x));
    Pull(0x98c7e2a2, y, x);
    Pull(0xfc08884d, y, x);
  }

  // The input of a round whose `h` is known.
  lemma InputOfKnown(m: seq<bv32>, t: nat, h: bv32, y: bv32, x: bv32)
    requires |m| == 16 && t < 16 && m[t] == Add(y, x) && Rounds(INITIAL_VALUE, m, t).h == h
    ensures RoundInput(INITIAL_VALUE, m, t) == Add(Add(y, Add(h, K(t))), x)
  {
    hide Add;
    hide Rounds;
    hide W;
    hide K;
    ScheduleStart(m, t);
    Pull(Add(h, K(t)), y, x);
  }

  lemma LowDigestWords(mid: State, x: State)
    ensures var m := DigestBlock(mid, x);
            m[0] == Add(mid.a, x.a) && m[1] == Add(mid.b, x.b) && m[2] == Add(mid.c, x.c) && m[3] == Add(mid.d, x.d)
  {
    hide Add;
    hide DigestBlock;
    DigestAB(mid, x);
    DigestCD(mid, x);
  }

  lemma DigestAB(mid: State, x: State)
    ensures DigestBlock(mid, x)[0] == Add(mid.a, x.a) && DigestBlock(mid, x)[1] == Add(mid.b, x.b)
  {
    hide Add;
  }

  lemma DigestCD(mid: State, x: State)
    ensures DigestBlock(mid, x)[2] == Add(mid.c, x.c) && DigestBlock(mid, x)[3] == Add(mid.d, x.d)
  {
    hide Add;
  }

  lemma RoundsZero(m: seq<bv32>)
    requires |m| == 16
    ensures Rounds(INITIAL_VALUE, m, 0) == INITIAL_VALUE
  {
  }

  lemma DigestWords(mid: State, x: State)
    ensures var m := DigestBlock(mid, x);
            m[4] == Add(mid.e, x.e) && m[5] == Add(mid.f, x.f) && m[6] == Add(mid.g, x.g) && m[7] == Add(mid.h, x.h)
  {
    hide Add;
    hide DigestBlock;
    DigestEF(mid, x);
    DigestGH(mid, x);
  }

  lemma DigestEF(mid: State, x: State)
    ensures DigestBlock(mid, x)[4] == Add(mid.e, x.e) && DigestBlock(mid, x)[5] == Add(mid.f, x.f)
  {
    hide Add;
  }

  lemma DigestGH(mid: State, x: State)
    ensures DigestBlock(mid, x)[6] == Add(mid.g, x.g) && DigestBlock(mid, x)[7] == Add(mid.h, x.h)
  {
    hide Add;
  }

  lemma InputOfSum(m: seq<bv32>, t: nat, y: bv32, x: bv32)
    requires |m| == 16 && t < 16 && m[t] == Add(y, x)
    ensures RoundInput(INITIAL_VALUE, m, t) == Add(Rounds(INITIAL_VALUE, m, t).h, Add(Add(y, K(t)), x))
  {
    hide Add;
    hide Rounds;
    hide K;
    ScheduleStart(m, t);
    AddAssociates(Rounds(INITIAL_VALUE, m, t).h, K(t), Add(y, x));
    Pull(K(t), y, x);
  }

  // ---------- the precomputed fields ----------

  // dev_blk_ctx, as far as precalc_hash fills it.
  class DevBlkCtx {
    var ctx: State
    var ctyA: bv32
    var ctyB: bv32
    var ctyC: bv32
    var ctyD: bv32
    var ctyE: bv32
    var ctyF: bv32
    var ctyG: bv32
    var ctyH: bv32
    var d1a: bv32
    var merkle: bv32
    var ntime: bv32
    var nbits: bv32
    var w16: bv32
    var w17: bv32
    var preVal4: bv32
    var t1: bv32
    var preVal4Plus2: bv32
    var preVal0: bv32
    var preW31: bv32
    var preW32: bv32
    var preW18: bv32
    var preW19: bv32
    var w2: bv32
    var w2a: bv32
    var w17Plus2: bv32
    var fw0: bv32
    var fw1: bv32
    var fw2: bv32
    var fw3: bv32
    var fw15: bv32
    var fw01r: bv32
    var fctyE: bv32
    var fctyE2: bv32
    var preVal4AddT1: bv32
    var t1Substate0: bv32
    var c1AddK5: bv32
    var b1AddK6: bv32
    var preVal0AddK7: bv32
    var w16AddK16: bv32
    var w17AddK17: bv32
    var zeroA: bv32
    var zeroB: bv32
    var oneA: bv32
    var twoA: bv32
    var threeA: bv32
    var fourA: bv32
    var fiveA: bv32
    var sixA: bv32
    var sevenA: bv32

    // State after three rounds; the variables are renamed, not moved.
    ghost function AfterThree(): State
      reads this`ctyA, this`ctyB, this`ctyC, this`ctyD, this`ctyE, this`ctyF, this`ctyG, this`ctyH
    {
      State(ctyF, ctyG, ctyH, ctyA, ctyB, ctyC, ctyD, ctyE)
    }

    // The words of the message schedule with the nonce left out.
    ghost predicate ScheduleFields(m: seq<bv32>)
      reads this
      requires |m| == 16
    {
      && merkle == m[0] && ntime == m[1] && nbits == w2 == m[2]
      && w16 == fw0 == W(m, 16) && w17 == fw1 == W(m, 17)
      && preW18 == w2a == fw2 && Add(preW18, SmallSigma0(m[3])) == W(m, 18)
      && preW19 == w17Plus2 == fw3 && Add(preW19, m[3]) == W(m, 19)
      && preW31 == fw15 && W(m, 31) == Add3(preW31, W(m, 24), SmallSigma1(W(m, 29)))
      && preW32 == fw01r && W(m, 32) == Add3(preW32, W(m, 25), SmallSigma1(W(m, 30)))
    }

    // The fourth round: `e` and `a` of its result, and of its parts, up to adding the nonce.
    ghost predicate FourthRoundFields(mid: State, m: seq<bv32>)
      reads this
      requires |m| == 16
    {
      var s3, s4 := Rounds(mid, m, 3), Rounds(mid, m, 4);
      && ctx == mid && s3 == AfterThree()
      && preVal4 == fctyE && Add(preVal4, m[3]) == T1(s3, m[3], K(3))
      && t1 == fctyE2 == T2(s3)
      && Add(preVal0, m[3]) == s4.e
      && preVal4Plus2 == preVal4AddT1 && Add(preVal4Plus2, m[3]) == s4.a
      && Add(t1Substate0, s4.a) == s4.e
    }

    // What later rounds add to the working variables.
    ghost predicate InputFields(mid: State, m: seq<bv32>)
      reads this
      requires |m| == 16
    {
      && d1a == RoundInput(mid, m, 4) && c1AddK5 == RoundInput(mid, m, 5) && b1AddK6 == RoundInput(mid, m, 6)
      && Add(preVal0AddK7, m[3]) == RoundInput(mid, m, 7)
      && Add(Rounds(mid, m, 16).h, w16AddK16) == RoundInput(mid, m, 16)
      && Add(Rounds(mid, m, 17).h, w17AddK17) == RoundInput(mid, m, 17)
    }

    // The second hash, m being its block for the working variables x the first one ends with.
    ghost predicate SecondHashFields(x: State, m: seq<bv32>)
      reads this
      requires |m| == 16
    {
      var r1 := Rounds(INITIAL_VALUE, m, 1);
      && r1.e == Add(zeroA, x.a) && r1.a == Add(zeroB, x.a)
      && RoundInput(INITIAL_VALUE, m, 1) == Add(oneA, x.b)
      && RoundInput(INITIAL_VALUE, m, 2) == Add(twoA, x.c)
      && RoundInput(INITIAL_VALUE, m, 3) == Add(threeA, x.d)
      && RoundInput(INITIAL_VALUE, m, 4) == Add(Rounds(INITIAL_VALUE, m, 4).h, Add(fourA, x.e))
      && RoundInput(INITIAL_VALUE, m, 5) == Add(Rounds(INITIAL_VALUE, m, 5).h, Add(fiveA, x.f))
      && RoundInput(INITIAL_VALUE, m, 6) == Add(Rounds(INITIAL_VALUE, m, 6).h, Add(sixA, x.g))
      && RoundInput(INITIAL_VALUE, m, 7) == Add(Rounds(INITIAL_VALUE, m, 7).h, Add(sevenA, x.h))
    }

    // The values of the fields, in the functions of the standard.
    ghost predicate ThreeRoundValues(data: seq<bv32>)
      reads this`ctx, this`ctyA, this`ctyB, this`ctyC, this`ctyD, this`ctyE, this`ctyF, this`ctyG, this`ctyH
      requires |data| >= 3
    {
      && AfterThree() == Round(Round(Round(ctx, data[0], K(0)), data[1], K(1)), data[2], K(2))
      && ctyA == ctx.a && ctyE == ctx.e
    }

    ghost predicate ScheduleValues(data: seq<bv32>)
      reads this`merkle, this`ntime, this`nbits, this`w2, this`w16, this`w17, this`fw0, this`fw1,
            this`preW18, this`preW19, this`preW31, this`preW32
      requires |data| >= 3
    {
      && merkle == data[0] && ntime == data[1] && nbits == w2 == data[2]
      && w16 == fw0 == Add(data[0], SmallSigma0(data[1]))
      && w17 == fw1 == Add3(data[1], SmallSigma0(data[2]), 0x01100000)
      && preW18 == Add(data[2], SmallSigma1(w16))
      && preW19 == Add(0x11002000, SmallSigma1(w17))
      && preW31 == Add(0x280, SmallSigma0(w16))
      && preW32 == Add(w16, SmallSigma0(w17))
    }

    // Some words are stored again under other names.
    ghost predicate RepeatedValues()
      reads this`preW18, this`preW19, this`preW31, this`preW32, this`w2a, this`w17Plus2, this`fw2, this`fw3,
            this`fw15, this`fw01r
    {
      preW18 == w2a == fw2 && preW19 == w17Plus2 == fw3 && preW31 == fw15 && preW32 == fw01r
    }

    ghost predicate FourthRoundValues()
      reads this`ctx, this`preVal4, this`fctyE, this`t1, this`fctyE2, this`preVal4Plus2, this`preVal0,
            this`preVal4AddT1, this`t1Substate0,
            this`ctyA, this`ctyB, this`ctyC, this`ctyD, this`ctyE, this`ctyF, this`ctyG, this`ctyH
    {
      && preVal4 == fctyE == Add4(ctx.e, BigSigma1(ctyB), Ch(ctyB, ctyC, ctyD), K(3))
      && t1 == fctyE2 == T2(AfterThree())
      && preVal4Plus2 == preVal4AddT1 == Add(preVal4, t1)
      && preVal0 == Add(preVal4, ctx.a)
      && t1Substate0 == Subtract(ctx.a, t1)
    }

    ghost predicate InputValues()
      reads this`d1a, this`c1AddK5, this`b1AddK6, this`preVal0AddK7, this`w16AddK16, this`w17AddK17,
            this`ctyB, this`ctyC, this`ctyD, this`preVal0, this`w16, this`w17
    {
      && d1a == Add(ctyD, 0xb956c25b) && c1AddK5 == Add(ctyC, K(5)) && b1AddK6 == Add(ctyB, K(6))
      && preVal0AddK7 == Add(preVal0, K(7)) && w16AddK16 == Add(w16, K(16)) && w17AddK17 == Add(w17, K(17))
    }

    ghost predicate SecondHashValues()
      reads this`ctx, this`zeroA, this`zeroB, this`oneA, this`twoA, this`threeA, this`fourA, this`fiveA, this`sixA,
            this`sevenA
    {
      && zeroA == Add(ctx.a, 0x98c7e2a2) && zeroB == Add(ctx.a, 0xfc08884d) && oneA == Add(ctx.b, 0x90bb1e3c)
      && twoA == Add(ctx.c, 0x50c6645b) && threeA == Add(ctx.d, 0x3ac42e24) && fourA == Add(ctx.e, K(4))
      && fiveA == Add(ctx.f, K(5)) && sixA == Add(ctx.g, K(6)) && sevenA == Add(ctx.h, K(7))
    }

    // precalc_hash: for every nonce, every field is its SHA-256 value with the nonce left out. The midstate is the
    // given state, word by word.
    method PrecalcHash(state: seq<bv32>, data: seq<bv32>)
      requires |state| >= 8 && |data| >= 3
      modifies this
      ensures ctx.a == state[0] && ctx.b == state[1] && ctx.c == state[2] && ctx.d == state[3]
      ensures ctx.e == state[4] && ctx.f == state[5] && ctx.g == state[6] && ctx.h == state[7]
      ensures forall nonce :: ScheduleFields(HeaderTail(data, nonce))
      ensures forall nonce :: FourthRoundFields(ctx, HeaderTail(data, nonce))
      ensures forall nonce :: InputFields(ctx, HeaderTail(data, nonce))
      ensures forall x :: SecondHashFields(x, DigestBlock(ctx, x))
    {
      hide Add;
      hide Add3;
      hide Add4;
      hide Subtract;
      hide Round;
      hide T2;
      hide K;
      hide SmallSigma0;
      hide SmallSigma1;
      hide BigSigma1;
      hide Ch;
      hide HeaderTail;
      hide DigestBlock;
      hide ScheduleFields;
      hide FourthRoundFields;
      hide InputFields;
      hide SecondHashFields;
      Fill(state, data);
      forall nonce
        ensures ScheduleFields(HeaderTail(data, nonce))
        ensures FourthRoundFields(ctx, HeaderTail(data, nonce))
        ensures InputFields(ctx, HeaderTail(data, nonce))
      {
        ScheduleMeaning(data, nonce);
        FourthRoundMeaning(data, nonce);
        InputMeaning(data, nonce);
      }
      forall x
        ensures SecondHashFields(x, DigestBlock(ctx, x))
      {
        SecondHashMeaning(x);
      }
    }

    method Fill(state: seq<bv32>, data: seq<bv32>)
      requires |state| >= 8 && |data| >= 3
      modifies this
      ensures ctx == State(state[0], state[1], state[2], state[3], state[4], state[5], state[6], state[7])
      ensures ThreeRoundValues(data) && ScheduleValues(data) && RepeatedValues()
      ensures FourthRoundValues() && InputValues() && SecondHashValues()
    {
      hide ThreeRoundValues;
      hide ScheduleValues;
      hide RepeatedValues;
      hide FourthRoundValues;
      hide InputValues;
      hide SecondHashValues;
      ctx := State(state[0], state[1], state[2], state[3], state[4], state[5], state[6], state[7]);
      FillFromData(data);
      FillSums();
    }

    method FillFromData(data: seq<bv32>)
      requires |data| >= 3
      modifies this`ctyA, this`ctyB, this`ctyC, this`ctyD, this`ctyE, this`ctyF, this`ctyG, this`ctyH,
               this`merkle, this`ntime, this`nbits, this`w16, this`w17, this`fw0, this`fw1, this`preW18, this`preW19,
               this`preW31, this`preW32, this`w2, this`w2a, this`w17Plus2, this`fw2, this`fw3, this`fw15, this`fw01r
      ensures ThreeRoundValues(data) && ScheduleValues(data) && RepeatedValues()
    {
      hide ThreeRoundValues;
      hide ScheduleValues;
      hide RepeatedValues;
      RunThreeRounds(data);
      FillSchedules(data);
    }

    method FillSchedules(data: seq<bv32>)
      requires |data| >= 3
      modifies this`merkle, this`ntime, this`nbits, this`w16, this`w17, this`fw0, this`fw1, this`preW18, this`preW19,
               this`preW31, this`preW32, this`w2, this`w2a, this`w17Plus2, this`fw2, this`fw3, this`fw15, this`fw01r
      ensures ScheduleValues(data) && RepeatedValues()
    {
      hide ScheduleValues;
      hide RepeatedValues;
      FillSchedule(data);
      FillRepeated(data);
    }

    method FillSums()
      modifies this`preVal4, this`fctyE, this`t1, this`fctyE2, this`preVal4Plus2, this`preVal0, this`preVal4AddT1,
               this`t1Substate0, this`d1a, this`c1AddK5, this`b1AddK6, this`preVal0AddK7, this`w16AddK16,
               this`w17AddK17, this`zeroA, this`zeroB, this`oneA, this`twoA, this`threeA, this`fourA, this`fiveA,
               this`sixA, this`sevenA
      ensures FourthRoundValues() && InputValues() && SecondHashValues()
    {
      hide FourthRoundValues;
      hide InputValues;
      hide SecondHashValues;
      FillFourthRound();
      FillInputs();
      FillSecondHash();
    }

    // A to H of the source are the cty fields.
    method RunThreeRounds(data: seq<bv32>)
      requires |data| >= 3
      modifies this`ctyA, this`ctyB, this`ctyC, this`ctyD, this`ctyE, this`ctyF, this`ctyG, this`ctyH
      ensures ThreeRoundValues(data)
    {
      hide R;
      hide Round;
      hide K;
      var A, B, C, D := ctx.a, ctx.b, ctx.c, ctx.d;
      var E, F, G, H := ctx.e, ctx.f, ctx.g, ctx.h;
      RIsRound(ctx, data[0], K(0));
      var r := R(A, B, C, D, E, F, G, H, data[0], K(0));
      D, H := r.0, r.1;
      RIsRound(State(H, A, B, C, D, E, F, G), data[1], K(1));
      r := R(H, A, B, C, D, E, F, G, data[1], K(1));
      C, G := r.0, r.1;
      RIsRound(State(G, H, A, B, C, D, E, F), data[2], K(2));
      r := R(G, H, A, B, C, D, E, F, data[2], K(2));
      B, F := r.0, r.1;
      ctyA, ctyB, ctyC, ctyD := A, B, C, D;
      ctyE, ctyF, ctyG, ctyH := E, F, G, H;
    }

    method FillSchedule(data: seq<bv32>)
      requires |data| >= 3
      modifies this`merkle, this`ntime, this`nbits, this`w16, this`w17, this`fw0, this`fw1, this`preW18, this`preW19,
               this`preW31, this`preW32, this`w2
      ensures ScheduleValues(data)
    {
      hide Add;
      hide Add3;
      hide SmallSigma0;
      hide SmallSigma1;
      hide Mix0;
      hide Mix1;
      hide Mix1Swapped;
      merkle, ntime, nbits := data[0], data[1], data[2];
      FillFirstSchedule(data);
      FillPreWords(data);
      w2 := data[2];
    }

    method FillFirstSchedule(data: seq<bv32>)
      requires |data| >= 3
      modifies this`w16, this`w17, this`fw0, this`fw1
      ensures w16 == fw0 == Add(data[0], SmallSigma0(data[1]))
      ensures w17 == fw1 == Add3(data[1], SmallSigma0(data[2]), 0x01100000)
    {
      hide Add;
      hide Add3;
      hide SmallSigma0;
      hide Mix0;
      MixForms(data[1]);
      MixForms(data[2]);
      fw0 := Add(data[0], Mix0(data[1]));
      w16 := fw0;
      fw1 := Add3(data[1], Mix0(data[2]), 0x01100000);
      w17 := fw1;
    }

    method FillPreWords(data: seq<bv32>)
      requires |data| >= 3
      modifies this`preW18, this`preW19, this`preW31, this`preW32
      ensures preW18 == Add(data[2], SmallSigma1(w16)) && preW19 == Add(0x11002000, SmallSigma1(w17))
      ensures preW31 == Add(0x280, SmallSigma0(w16)) && preW32 == Add(w16, SmallSigma0(w17))
    {
      hide Add;
      hide SmallSigma0;
      hide SmallSigma1;
      hide Mix0;
      hide Mix1;
      hide Mix1Swapped;
      MixForms(w16);
      MixForms(w17);
      preW31 := Add(0x00000280, Mix0(w16));
      preW32 := Add(w16, Mix0(w17));
      preW18 := Add(data[2], Mix1(w16));
      preW19 := Add(0x11002000, Mix1(w17));
    }

    method FillRepeated(data: seq<bv32>)
      requires |data| >= 3 && ScheduleValues(data)
      modifies this`w2a, this`w17Plus2, this`fw2, this`fw3, this`fw15, this`fw01r
      ensures RepeatedValues()
    {
      hide Add;
      hide Add3;
      hide SmallSigma0;
      hide SmallSigma1;
      hide Mix0;
      hide Mix1;
      hide Mix1Swapped;
      MixForms(w16);
      MixForms(w17);
      FillSwapped();
      fw2 := Add(data[2], Mix1(fw0));
      fw3 := Add(0x11002000, Mix1(fw1));
      FillHalves();
    }

    method FillHalves()
      modifies this`fw15, this`fw01r
      ensures fw15 == Add(0x280, SmallSigma0(fw0)) && fw01r == Add(fw0, SmallSigma0(fw1))
    {
      hide Add;
      hide SmallSigma0;
      hide Mix0;
      MixForms(fw0);
      MixForms(fw1);
      fw15 := Add(0x00000280, Mix0(fw0));
      fw01r := Add(fw0, Mix0(fw1));
    }

    method FillSwapped()
      modifies this`w2a, this`w17Plus2
      ensures w2a == Add(w2, SmallSigma1(w16)) && w17Plus2 == Add(0x11002000, SmallSigma1(w17))
    {
      hide Add;
      hide SmallSigma1;
      hide Mix1;
      hide Mix1Swapped;
      MixForms(w16);
      MixForms(w17);
      w2a := Add(w2, Mix1Swapped(w16));
      w17Plus2 := Add(0x11002000, Mix1Swapped(w17));
    }

    method FillFourthRound()
      modifies this`preVal4, this`fctyE, this`t1, this`fctyE2, this`preVal4Plus2, this`preVal0, this`preVal4AddT1,
               this`t1Substate0
      ensures FourthRoundValues()
    {
      hide Add;
      hide Add4;
      hide Ch;
      hide T2;
      hide BigSigma1;
      hide Subtract;
      hide K;
      hide AfterThree;
      FillVals();
      FillPreVals();
    }

    method FillVals()
      modifies this`preVal4, this`fctyE, this`t1, this`fctyE2
      ensures preVal4 == fctyE == Add4(ctx.e, BigSigma1(ctyB), Ch(ctyB, ctyC, ctyD), K(3))
      ensures t1 == fctyE2 == T2(AfterThree())
    {
      hide Add4;
      hide Ch;
      hide T2;
      hide BigSigma1;
      hide K;
      hide AfterThree;
      FillVal4();
      FillT1();
    }

    method FillVal4()
      modifies this`preVal4, this`fctyE
      ensures preVal4 == fctyE == Add4(ctx.e, BigSigma1(ctyB), Ch(ctyB, ctyC, ctyD), K(3))
    {
      hide Add;
      hide Add4;
      hide Choose;
      hide Ch;
      hide BigSigma1;
      hide Fold1;
      RoundConstants();
      hide K;
      FoldForms(ctyB);
      ChForm(ctyB, ctyC, ctyD);
      fctyE := Add4(ctx.e, Fold1(ctyB), Choose(ctyB, ctyC, ctyD), 0xe9b5dba5);
      preVal4 := fctyE;
    }

    method FillT1()
      modifies this`t1, this`fctyE2
      ensures t1 == fctyE2 == T2(AfterThree())
    {
      hide Add;
      hide Majority;
      hide Maj;
      hide BigSigma0;
      hide Fold0;
      FoldForms(ctyF);
      MajForm(ctyF, ctyG, ctyH);
      fctyE2 := Add(Fold0(ctyF), Majority(ctyF, ctyG, ctyH));
      t1 := fctyE2;
    }

    method FillPreVals()
      modifies this`preVal4Plus2, this`preVal0, this`preVal4AddT1, this`t1Substate0
      ensures preVal4Plus2 == preVal4AddT1 == Add(preVal4, t1) && preVal0 == Add(preVal4, ctx.a)
      ensures t1Substate0 == Subtract(ctx.a, t1)
    {
      hide Add;
      hide Subtract;
      preVal4Plus2 := Add(preVal4, t1);
      preVal0 := Add(preVal4, ctx.a);
      preVal4AddT1 := Add(preVal4, t1);
      t1Substate0 := Subtract(ctx.a, t1);
    }

    method FillInputs()
      modifies this`d1a, this`c1AddK5, this`b1AddK6, this`preVal0AddK7, this`w16AddK16, this`w17AddK17
      ensures InputValues()
    {
      hide Add;
      hide K;
      FillEarlyInputs();
      w16AddK16 := Add(w16, K(16));
      w17AddK17 := Add(w17, K(17));
    }

    method FillEarlyInputs()
      modifies this`d1a, this`c1AddK5, this`b1AddK6, this`preVal0AddK7
      ensures d1a == Add(ctyD, 0xb956c25b) && c1AddK5 == Add(ctyC, K(5)) && b1AddK6 == Add(ctyB, K(6))
      ensures preVal0AddK7 == Add(preVal0, K(7))
    {
      hide Add;
      hide K;
      d1a := Add(ctyD, 0xb956c25b);
      c1AddK5 := Add(ctyC, K(5));
      b1AddK6 := Add(ctyB, K(6));
      preVal0AddK7 := Add(preVal0, K(7));
    }

    method FillFirstWords()
      modifies this`zeroA, this`zeroB, this`oneA, this`twoA, this`threeA
      ensures zeroA == Add(ctx.a, 0x98c7e2a2) && zeroB == Add(ctx.a, 0xfc08884d)
      ensures oneA == Add(ctx.b, 0x90bb1e3c) && twoA == Add(ctx.c, 0x50c6645b) && threeA == Add(ctx.d, 0x3ac42e24)
    {
      hide Add;
      zeroA := Add(ctx.a, 0x98c7e2a2);
      zeroB := Add(ctx.a, 0xfc08884d);
      oneA := Add(ctx.b, 0x90bb1e3c);
      twoA := Add(ctx.c, 0x50c6645b);
      threeA := Add(ctx.d, 0x3ac42e24);
    }

    method FillSecondHash()
      modifies this`zeroA, this`zeroB, this`oneA, this`twoA, this`threeA, this`fourA, this`fiveA, this`sixA, this`sevenA
      ensures SecondHashValues()
    {
      hide Add;
      hide K;
      FillFirstWords();
      fourA := Add(ctx.e, K(4));
      fiveA := Add(ctx.f, K(5));
      sixA := Add(ctx.g, K(6));
      sevenA := Add(ctx.h, K(7));
    }

    lemma ScheduleMeaning(data: seq<bv32>, nonce: bv32)
      requires |data| >= 3 && ScheduleValues(data) && RepeatedValues()
      ensures ScheduleFields(HeaderTail(data, nonce))
    {
      hide Add;
      hide Add3;
      hide Add4;
      hide W;
      hide SmallSigma0;
      hide SmallSigma1;
      var m := HeaderTail(data, nonce);
      EarlyWords(data, nonce);
      LateWords(data, nonce);
      Nest(data[2], SmallSigma1(w16), SmallSigma0(nonce), 0);
      Nest(0x11002000, SmallSigma1(w17), nonce, 0);
      Nest(0x280, SmallSigma0(w16), W(m, 24), SmallSigma1(W(m, 29)));
      Nest(w16, SmallSigma0(w17), W(m, 25), SmallSigma1(W(m, 30)));
    }

    lemma FourthRoundMeaning(data: seq<bv32>, nonce: bv32)
      requires |data| >= 3 && ThreeRoundValues(data) && FourthRoundValues()
      ensures FourthRoundFields(ctx, HeaderTail(data, nonce))
      ensures var s := AfterThree();
              Rounds(ctx, HeaderTail(data, nonce), 4) == State(Add(preVal4Plus2, nonce), s.a, s.b, s.c,
                                                               Add(preVal0, nonce), s.e, s.f, s.g)
    {
      hide Add;
      hide Add4;
      hide Round;
      hide T2;
      hide BigSigma1;
      hide Ch;
      hide K;
      hide Subtract;
      hide Rounds;
      hide W;
      var m, s3 := HeaderTail(data, nonce), AfterThree();
      var s1 := Round(ctx, data[0], K(0));
      ThreeRounds(ctx, data, nonce, s1, Round(s1, data[1], K(1)), s3);
      ScheduleStart(m, 3);
      RoundsStep(ctx, m, 3);
      FourthRound(s3, nonce, preVal4);
      Difference(ctx.a, t1, preVal4, nonce);
    }

    lemma InputMeaning(data: seq<bv32>, nonce: bv32)
      requires |data| >= 3 && ThreeRoundValues(data) && ScheduleValues(data) && FourthRoundValues() && InputValues()
      ensures InputFields(ctx, HeaderTail(data, nonce))
    {
      hide Add;
      hide Add3;
      hide Add4;
      hide Round;
      hide T2;
      hide K;
      hide W;
      hide Rounds;
      hide RoundInput;
      hide SmallSigma0;
      hide SmallSigma1;
      hide BigSigma1;
      hide Ch;
      hide Subtract;
      FourthRoundMeaning(data, nonce);
      EarlyWords(data, nonce);
      LaterInputs(ctx, data, nonce, Rounds(ctx, HeaderTail(data, nonce), 4), w16, w17);
      Swap(preVal0, nonce, K(7));
    }

    lemma SecondHashMeaning(x: State)
      requires SecondHashValues()
      ensures SecondHashFields(x, DigestBlock(ctx, x))
    {
      hide Add;
      hide K;
      hide W;
      hide Rounds;
      hide RoundInput;
      var m := DigestBlock(ctx, x);
      SecondHashInputs(ctx, x);
      DigestWords(ctx, x);
      hide DigestBlock;
      InputOfSum(m, 4, ctx.e, x.e);
      InputOfSum(m, 5, ctx.f, x.f);
      InputOfSum(m, 6, ctx.g, x.g);
      InputOfSum(m, 7, ctx.h, x.h);
    }
  }
}
