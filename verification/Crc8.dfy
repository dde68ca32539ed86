// The table-driven CRC-8 that covers HashFast packet headers.
module Crc8 {

  // The low byte of the generator x^8 + x^2 + x + 1.
  const DI8: bv8 := 0x07

  // ---------- bit-serial definition ----------

  // One clock of the CRC register: message bit `bit` enters at the top.
  function Clock(crc: bv8, bit: bool): bv8 {
    if ((crc & 0x80) != 0) != bit then (crc << 1) ^ DI8 else crc << 1
  }

  function Left(b: bv8, n: nat): bv8 {
    if n == 0 then b else Double(Left(b, n - 1))
  }

  // The n most significant bits of a message byte, the most significant first.
  function ClockBits(crc: bv8, b: bv8, n: nat): bv8 {
    if n == 0 then crc else Clock(ClockBits(crc, b, n - 1), Top(Left(b, n - 1)))
  }

  function ClockByte(crc: bv8, b: bv8): bv8 {
    ClockBits(crc, b, 8)
  }

  function Crc(init: bv8, message: seq<bv8>): bv8 {
    if message == [] then init else ClockByte(Crc(init, message[..|message| - 1]), message[|message| - 1])
  }

  // ---------- the driver's table ----------

  function Shift(crc: bv8): bv8 {
    (crc << 1) ^ (if crc & 0x80 != 0 then DI8 else 0)
  }

  function ShiftN(crc: bv8, n: nat): bv8 {
    if n == 0 then crc else Shift(ShiftN(crc, n - 1))
  }

  // What crc8_table holds at index i.
  function Entry(i: bv8): bv8 {
    ShiftN(i, 8)
  }

  // hfa_init_crc8
  method InitCrc8(table: array<bv8>)
    requires table.Length == 256
    modifies table
    ensures forall i: bv8 :: table[i as int] == Entry(i)
  {
    var i := 0;
    while i < 256
      invariant i <= 256
      invariant forall k: bv8 :: k as int < i ==> table[k as int] == Entry(k)
    {
      var crc := i as bv8;
      var j := 0;
      while j < 8
        invariant j <= 8 && crc == ShiftN(i as bv8, j)
      {
        crc := (crc << 1) ^ (if crc & 0x80 != 0 then DI8 else 0);
        j := j + 1;
      }
      table[i] := crc;
      i := i + 1;
    }
  }

  // hfa_crc8: bytes 1..6 of the header, the preamble is not covered.
  method HfaCrc8(table: array<bv8>, h: array<bv8>) returns (crc: bv8)
    requires table.Length == 256 && forall i: bv8 :: table[i as int] == Entry(i)
    requires h.Length >= 7
    ensures crc == Crc(0xff, h[1..7])
  {
    crc := 0xff;
    var i := 1;
    while i < 7
      invariant 1 <= i <= 7
      invariant crc == Crc(0xff, h[1..i])
    {
      assert h[1..i + 1][..i - 1] == h[1..i];
      EntryIsClockByte(crc, h[i]);
      crc := table[(crc ^ h[i]) as int];
      i := i + 1;
    }
  }

  function Xor(x: bv8, y: bv8): bv8 {
    x ^ y
  }

  function Double(x: bv8): bv8 {
    x << 1
  }

  predicate Top(x: bv8) {
    x & 0x80 != 0
  }

  lemma ClockIsShift(c: bv8, r: bv8)
    ensures Xor(Clock(c, Top(r)), Double(r)) == Shift(Xor(c, r))
  {
    hide Clock;
    hide Shift;
    hide Xor;
    hide Double;
    hide Top;
    ClockIs(c, Top(r));
    ShiftIs(Xor(c, r));
    TopXor(c, r);
    DoubleXor(c, r);
    XorLast(Double(c), DI8, Double(r));
  }

  lemma ClockIs(c: bv8, bit: bool)
    ensures Clock(c, bit) == if Top(c) != bit then Xor(Double(c), DI8) else Double(c)
  {
  }

  lemma ShiftIs(x: bv8)
    ensures Shift(x) == if Top(x) then Xor(Double(x), DI8) else Double(x)
  {
    XorZero(x << 1);
  }

  lemma XorZero(x: bv8)
    ensures x ^ 0 == x
  {
  }

  lemma TopXor(x: bv8, y: bv8)
    ensures Top(Xor(x, y)) <==> Top(x) != Top(y)
  {
    TopBits(x, y);
  }

  lemma TopBits(c: bv8, r: bv8)
    ensures ((c ^ r) & 0x80 != 0) <==> ((c & 0x80 != 0) != (r & 0x80 != 0))
  {
  }

  lemma DoubleXor(x: bv8, y: bv8)
    ensures Double(Xor(x, y)) == Xor(Double(x), Double(y))
  {
    DoubleBits(x, y);
  }

  lemma DoubleBits(x: bv8, y: bv8)
    ensures (x ^ y) << 1 == (x << 1) ^ (y << 1)
  {
  }

  lemma XorLast(x: bv8, y: bv8, z: bv8)
    ensures Xor(Xor(x, y), z) == Xor(Xor(x, z), y)
  {
    LastBits(x, y, z);
  }

  lemma LastBits(x: bv8, y: bv8, z: bv8)
    ensures (x ^ y) ^ z == (x ^ z) ^ y
  {
  }

  // The message bits not yet clocked in are what separates the serial register from the shifted byte.
  lemma {:induction false} ClockBitsIsShiftN(crc: bv8, b: bv8, n: nat)
    ensures Xor(ClockBits(crc, b, n), Left(b, n)) == ShiftN(Xor(crc, b), n)
  {
    hide Clock;
    hide Shift;
    hide Xor;
    hide Double;
    hide Top;
    if n > 0 {
      ClockBitsIsShiftN(crc, b, n - 1);
      ClockIsShift(ClockBits(crc, b, n - 1), Left(b, n - 1));
    }
  }

  lemma {:induction false} LeftSum(b: bv8, m: nat, n: nat)
    ensures Left(b, m + n) == Left(Left(b, m), n)
  {
    if n > 0 {
      LeftSum(b, m, n - 1);
    }
  }

  lemma AllShiftedOut(b: bv8)
    ensures Left(b, 8) == 0
  {
    LeftSum(b, 2, 2);
    LeftSum(b, 4, 2);
    LeftSum(b, 6, 2);
  }

  // One table look-up does the work of eight clocks.
  lemma EntryIsClockByte(crc: bv8, b: bv8)
    ensures Entry(crc ^ b) == ClockByte(crc, b)
  {
    ClockBitsIsShiftN(crc, b, 8);
    AllShiftedOut(b);
  }

  // ---------- error detection ----------

  function Unshift(crc: bv8): bv8 {
    if crc & 1 != 0 then ((crc ^ DI8) >> 1) | 0x80 else crc >> 1
  }

  lemma UnshiftInverts(crc: bv8)
    ensures Unshift(Shift(crc)) == crc && Shift(Unshift(crc)) == crc
  {
  }

  function UnshiftN(crc: bv8, n: nat): bv8
    decreases n
  {
    if n == 0 then crc else UnshiftN(Unshift(crc), n - 1)
  }

  lemma {:induction false} UnshiftNInverts(crc: bv8, n: nat)
    ensures UnshiftN(ShiftN(crc, n), n) == crc && ShiftN(UnshiftN(crc, n), n) == crc
    decreases n
  {
    if n > 0 {
      UnshiftInverts(ShiftN(crc, n - 1));
      UnshiftInverts(crc);
      UnshiftNInverts(crc, n - 1);
      UnshiftNInverts(Unshift(crc), n - 1);
    }
  }

  // The table is a permutation of the bytes: UnshiftN(_, 8) undoes it from either side.
  lemma TableIsPermutation(i: bv8)
    ensures UnshiftN(Entry(i), 8) == i && Entry(UnshiftN(i, 8)) == i
  {
    UnshiftNInverts(i, 8);
  }

  // The table is linear, and its entry at 1 is the low part of the generator: an entry is the remainder of its
  // index times x^8.
  lemma {:induction false} ShiftNLinear(x: bv8, y: bv8, n: nat)
    ensures ShiftN(Xor(x, y), n) == Xor(ShiftN(x, n), ShiftN(y, n))
  {
    hide Shift;
    hide Xor;
    if n > 0 {
      ShiftNLinear(x, y, n - 1);
      ShiftLinear(ShiftN(x, n - 1), ShiftN(y, n - 1));
    }
  }

  lemma ShiftLinear(x: bv8, y: bv8)
    ensures Shift(Xor(x, y)) == Xor(Shift(x), Shift(y))
  {
    hide Shift;
    hide Xor;
    hide Double;
    hide Top;
    ShiftIs(x);
    ShiftIs(y);
    ShiftIs(Xor(x, y));
    TopXor(x, y);
    DoubleXor(x, y);
    XorLast(Double(x), DI8, Double(y));
    XorRight(Double(x), Double(y), DI8);
    XorBoth(Double(x), Double(y), DI8);
  }

  lemma XorRight(x: bv8, y: bv8, z: bv8)
    ensures Xor(x, Xor(y, z)) == Xor(Xor(x, y), z)
  {
    RightBits(x, y, z);
  }

  lemma RightBits(x: bv8, y: bv8, z: bv8)
    ensures x ^ (y ^ z) == (x ^ y) ^ z
  {
  }

  lemma XorBoth(x: bv8, y: bv8, z: bv8)
    ensures Xor(Xor(x, z), Xor(y, z)) == Xor(x, y)
  {
    BothBits(x, y, z);
  }

  lemma BothBits(x: bv8, y: bv8, z: bv8)
    ensures (x ^ z) ^ (y ^ z) == x ^ y
  {
  }

  lemma EntriesAreRemainders(x: bv8, y: bv8)
    ensures Entry(Xor(x, y)) == Xor(Entry(x), Entry(y))
    ensures Entry(0) == 0 && Entry(1) == 0x07 && Entry(0x80) == 0x89
  {
    ShiftNLinear(x, y, 8);
    EntryValues();
  }

  lemma EntryValues()
    ensures Entry(0) == 0 && Entry(1) == 0x07 && Entry(0x80) == 0x89
  {
  }

  // A message followed by its own CRC leaves nothing.
  lemma CrcResidue(init: bv8, message: seq<bv8>)
    ensures Crc(init, message + [Crc(init, message)]) == 0
  {
    var c := Crc(init, message);
    CrcConcat(init, message, [c]);
    CrcOneByte(c, c);
    EntryValues();
    SelfCancels(c);
  }

  lemma SelfCancels(c: bv8)
    ensures c ^ c == 0
  {
  }

  // Different registers stay different under the same message.
  lemma {:induction false} CrcInjectiveInRegister(a: bv8, b: bv8, message: seq<bv8>)
    requires a != b
    ensures Crc(a, message) != Crc(b, message)
  {
    if message != [] {
      var prefix, last := message[..|message| - 1], message[|message| - 1];
      CrcInjectiveInRegister(a, b, prefix);
      var c, d := Crc(a, prefix), Crc(b, prefix);
      EntryIsClockByte(c, last);
      EntryIsClockByte(d, last);
      TableIsPermutation(c ^ last);
      TableIsPermutation(d ^ last);
      XorCancels(c, d, last);
    }
  }

  lemma XorCancels(a: bv8, b: bv8, x: bv8)
    ensures a ^ x == b ^ x ==> a == b
    ensures x ^ a == x ^ b ==> a == b
  {
  }

  lemma {:induction false} CrcConcat(init: bv8, p: seq<bv8>, q: seq<bv8>)
    ensures Crc(init, p + q) == Crc(Crc(init, p), q)
    decreases |q|
  {
    if q == [] {
      assert p + q == p;
    } else {
      assert (p + q)[..|p + q| - 1] == p + q[..|q| - 1];
      CrcConcat(init, p, q[..|q| - 1]);
    }
  }

  lemma LastByteMatters(c: bv8, a: bv8, b: bv8)
    requires a != b
    ensures Crc(c, [a]) != Crc(c, [b])
  {
    CrcOneByte(c, a);
    CrcOneByte(c, b);
    TableIsPermutation(c ^ a);
    TableIsPermutation(c ^ b);
    XorCancels(a, b, c);
  }

  // Changing one byte of a message of any length always changes its CRC.
  lemma SingleByteErrorDetected(init: bv8, message: seq<bv8>, i: nat, b: bv8)
    requires i < |message| && b != message[i]
    ensures Crc(init, message[i := b]) != Crc(init, message)
  {
    hide Crc;
    var p, q := message[..i], message[i + 1..];
    var c := Crc(init, p);
    assert message == p + ([message[i]] + q);
    assert message[i := b] == p + ([b] + q);
    CrcConcat(init, p, [message[i]] + q);
    CrcConcat(init, p, [b] + q);
    CrcConcat(c, [message[i]], q);
    CrcConcat(c, [b], q);
    LastByteMatters(c, message[i], b);
    CrcInjectiveInRegister(Crc(c, [message[i]]), Crc(c, [b]), q);
  }

  lemma CrcOneByte(c: bv8, b: bv8)
    ensures Crc(c, [b]) == Entry(c ^ b)
  {
    assert [b][..0] == [];
    EntryIsClockByte(c, b);
  }

  // In a packet header exactly the bytes 1 to 6 are protected: a change of one byte changes the CRC if and
  // only if the byte is one of them.
  lemma HeaderByteProtected(h: seq<bv8>, i: nat, b: bv8)
    requires |h| >= 7 && i < |h| && b != h[i]
    ensures Crc(0xff, h[i := b][1..7]) != Crc(0xff, h[1..7]) <==> 1 <= i < 7
  {
    if 1 <= i < 7 {
      assert h[i := b][1..7] == h[1..7][i - 1 := b];
      SingleByteErrorDetected(0xff, h[1..7], i - 1, b);
    } else {
      assert h[i := b][1..7] == h[1..7];
    }
  }
}
