/**
  The checksum of src/xmodem.cpp: the branch-free byte update equals bitwise long division by
  x^16 + x^12 + x^5 + 1 with a zero initial value (ITU-T Recommendation V.41, section 2), and what
  that buys for `check`.
*/
module Crc16 {
  type byte = bv8

  // ---------------------------------------------------------------- the fast form

  /** One turn of the loop in `crc16_ccitt`: its five assignments in order. */
  function ByteStep(crc: bv16, b: byte): bv16 {
    var swapped := ((crc >> 8) & 0xFF) | (crc << 8);
    var c1 := swapped ^ (b as bv16);
    var c2 := c1 ^ ((c1 & 0xFF) >> 4);
    var c3 := c2 ^ ((c2 << 8) << 4);
    c3 ^ (((c3 & 0xFF) << 4) << 1)
  }

  function Crc(buffer: seq<byte>): bv16 {
    if buffer == [] then 0 else ByteStep(Crc(buffer[..|buffer| - 1]), buffer[|buffer| - 1])
  }

  lemma CrcSnoc(buffer: seq<byte>, i: nat)
    requires i < |buffer|
    ensures Crc(buffer[..i + 1]) == ByteStep(Crc(buffer[..i]), buffer[i])
  {
    assert buffer[..i + 1][..i] == buffer[..i];
  }

  lemma CrcOfNothing()
    ensures Crc([]) == 0
  {
  }

  method Crc16Ccitt(buffer: seq<byte>) returns (crc16: bv16)
    ensures crc16 == Crc(buffer)
    ensures crc16 == Remainder(Bits(buffer) + ZERO_BITS)
  {
    hide Remainder, Crc, Bits, ByteStep;
    crc16 := 0;
    var i, length := 0, |buffer|;
    CrcOfNothing();
    while length != 0
      invariant 0 <= i <= |buffer| && i + length == |buffer|
      invariant crc16 == Crc(buffer[..i])
    {
      CrcSnoc(buffer, i);
      crc16 := ByteStep(crc16, buffer[i]);
      i, length := i + 1, length - 1;
    }
    assert buffer[..i] == buffer;
    CrcIsDivision(buffer);
  }

  predicate Check(buf: seq<byte>, tcrc: bv16) {
    Crc(buf) == tcrc
  }

  // ---------------------------------------------------------------- the simple form: long division

  /** Sum of two polynomials over GF(2). */
  function Add(p: bv16, q: bv16): bv16 { p ^ q }

  function Coefficient(b: bool): bv16 { if b then 1 else 0 }

  /** Multiply a remainder by x, modulo the generator: the coefficient pushed out at the top comes
      back as x^12 + x^5 + 1. */
  function TimesX(r: bv16): bv16 {
    (r << 1) ^ ((r >> 15) << 12) ^ ((r >> 15) << 5) ^ (r >> 15)
  }

  /** Remainder of a polynomial, given by its coefficients from the highest down, on division by the
      generator: each step brings down the next coefficient. */
  function Remainder(bits: seq<bool>): bv16 {
    if bits == [] then 0
    else Add(TimesX(Remainder(bits[..|bits| - 1])), Coefficient(bits[|bits| - 1]))
  }

  /** A byte's coefficients, most significant bit first. */
  function BitsOf(b: byte): seq<bool> {
    [b & 0x80 != 0, b & 0x40 != 0, b & 0x20 != 0, b & 0x10 != 0,
     b & 0x08 != 0, b & 0x04 != 0, b & 0x02 != 0, b & 0x01 != 0]
  }

  function Bits(buffer: seq<byte>): seq<bool> {
    if buffer == [] then [] else Bits(buffer[..|buffer| - 1]) + BitsOf(buffer[|buffer| - 1])
  }

  /** Multiplying the message by x^16 appends sixteen zero coefficients. */
  const ZERO_BITS := seq(16, _ => false)

  // ---------------------------------------------------------------- multiplying by powers of x
  // The solver copes with these identities as long as no function is applied to another's result,
  // so each composition is unfolded one level at a time.

  function X2(r: bv16): bv16 { (r << 2) ^ ((r >> 14) << 12) ^ ((r >> 14) << 5) ^ (r >> 14) }

  function X4(r: bv16): bv16 { (r << 4) ^ ((r >> 12) << 12) ^ ((r >> 12) << 5) ^ (r >> 12) }

  function X8(r: bv16): bv16 {
    var t := (r >> 8) ^ (r >> 12);
    (r << 8) ^ (t << 12) ^ (t << 5) ^ t
  }

  lemma AddIs(p: bv16, q: bv16)
    ensures Add(p, q) == p ^ q
  {
  }

  lemma AddZero(r: bv16)
    ensures Add(r, 0) == r
  {
  }

  lemma TimesXIs(r: bv16)
    ensures TimesX(r) == (r << 1) ^ ((r >> 15) << 12) ^ ((r >> 15) << 5) ^ (r >> 15)
  {
  }

  lemma X2Is(r: bv16)
    ensures X2(r) == (r << 2) ^ ((r >> 14) << 12) ^ ((r >> 14) << 5) ^ (r >> 14)
  {
  }

  lemma X4Is(r: bv16)
    ensures X4(r) == (r << 4) ^ ((r >> 12) << 12) ^ ((r >> 12) << 5) ^ (r >> 12)
  {
  }

  lemma TimesXOfTimesX(r: bv16)
    ensures TimesX((r << 1) ^ ((r >> 15) << 12) ^ ((r >> 15) << 5) ^ (r >> 15)) == X2(r)
  {
  }

  lemma X2OfX2(r: bv16)
    ensures X2((r << 2) ^ ((r >> 14) << 12) ^ ((r >> 14) << 5) ^ (r >> 14)) == X4(r)
  {
  }

  lemma X4OfX4(r: bv16)
    ensures X4((r << 4) ^ ((r >> 12) << 12) ^ ((r >> 12) << 5) ^ (r >> 12)) == X8(r)
  {
  }

  /** `X4` and `X8` are four and eight multiplications by x. */
  lemma PowersOfX(r: bv16)
    ensures X4(r) == TimesX(TimesX(TimesX(TimesX(r))))
    ensures X8(r) == X4(X4(r))
  {
    hide TimesX, X2, X4, X8;
    TimesXIs(r);
    TimesXOfTimesX(r);
    TimesXIs(X2(r));
    TimesXOfTimesX(X2(r));
    X2Is(r);
    X2OfX2(r);
    X4Is(r);
    X4OfX4(r);
  }

  lemma X2LinearXor(a: bv16, b: bv16)
    ensures X2(a ^ b) == X2(a) ^ X2(b)
  {
  }

  /** Multiplying by x^8 distributes over addition. */
  lemma X8Linear(a: bv16, b: bv16)
    ensures X8(Add(a, b)) == Add(X8(a), X8(b))
  {
    hide Add, X4, X8;
    X4Linear(a, b);
    X4Linear(X4(a), X4(b));
    X8IsX4(a);
    X8IsX4(b);
    X8IsX4(Add(a, b));
  }

  lemma X8IsX4(r: bv16)
    ensures X8(r) == X4(X4(r))
  {
    PowersOfX(r);
  }

  lemma X4IsX2(r: bv16)
    ensures X4(r) == X2(X2(r))
  {
    hide X2, X4;
    X2Is(r);
    X2OfX2(r);
  }

  lemma X4Linear(a: bv16, b: bv16)
    ensures X4(Add(a, b)) == Add(X4(a), X4(b))
  {
    hide Add, X2, X4;
    X2Linear(a, b);
    X2Linear(X2(a), X2(b));
    X4IsX2(a);
    X4IsX2(b);
    X4IsX2(Add(a, b));
  }

  lemma X2Linear(a: bv16, b: bv16)
    ensures X2(Add(a, b)) == Add(X2(a), X2(b))
  {
    hide Add, X2;
    AddIs(a, b);
    X2LinearXor(a, b);
    AddIs(X2(a), X2(b));
  }

  /** A short enough block of coefficients is only shifted. */
  lemma SmallShift(b: bv16)
    requires b < 0x100
    ensures X8(b) == b << 8
  {
  }

  lemma ByteStepXor(crc: bv16, b: byte)
    ensures ByteStep(crc, b) == X8(crc ^ ((b as bv16) << 8))
  {
  }

  /** The code's byte update is: add the byte to the top, multiply by x^8. */
  lemma ByteStepIsDivision(crc: bv16, b: byte)
    ensures ByteStep(crc, b) == X8(Add(crc, (b as bv16) << 8))
  {
    hide ByteStep, X8, Add;
    ByteStepXor(crc, b);
    AddIs(crc, (b as bv16) << 8);
  }

  // ---------------------------------------------------------------- the division theorem

  /** A remainder known up to a few low coefficients `p`: bringing down one more shifts them. */
  lemma BringDown(bits: seq<bool>, b: bool, a: bv16, p: bv16)
    requires Remainder(bits) == Add(a, p) && p < 0x100
    ensures Remainder(bits + [b]) == Add(TimesX(a), Push(p, b))
  {
    hide TimesX, Add, Push;
    assert (bits + [b])[..|bits|] == bits;
    ShiftIn(a, p, b);
  }

  lemma ShiftIn(a: bv16, p: bv16, b: bool)
    requires p < 0x100
    ensures Add(TimesX(Add(a, p)), Coefficient(b)) == Add(TimesX(a), Push(p, b))
  {
    hide *;
    TimesXLinear(a, p);
    AddAssociates(TimesX(a), TimesX(p), Coefficient(b));
    PushIs(p, b);
  }

  lemma PushIs(p: bv16, b: bool)
    requires p < 0x100
    ensures Push(p, b) == Add(TimesX(p), Coefficient(b))
  {
  }

  lemma TimesXLinear(a: bv16, b: bv16)
    ensures TimesX(Add(a, b)) == Add(TimesX(a), TimesX(b))
  {
    hide *;
    AddIs(a, b);
    TimesXLinearXor(a, b);
    AddIs(TimesX(a), TimesX(b));
  }

  lemma TimesXLinearXor(a: bv16, b: bv16)
    ensures TimesX(a ^ b) == TimesX(a) ^ TimesX(b)
  {
  }

  lemma AddAssociates(p: bv16, q: bv16, r: bv16)
    ensures Add(Add(p, q), r) == Add(p, Add(q, r))
  {
  }

  /** Append one low coefficient. */
  function Push(p: bv16, b: bool): bv16 { (p << 1) | Coefficient(b) }

  function ShiftIn4(p: bv16, s: seq<bool>): bv16
    requires |s| == 4
  {
    Push(Push(Push(Push(p, s[0]), s[1]), s[2]), s[3])
  }

  lemma ShortBlocks(p: bv16, b: bool)
    ensures p < 0x10 ==> Push(p, b) < 0x20
    ensures p < 0x20 ==> Push(p, b) < 0x40
    ensures p < 0x40 ==> Push(p, b) < 0x80
  {
  }

  lemma {:induction false} BringDown4(bits: seq<bool>, s: seq<bool>, r: bv16, p: bv16)
    requires |s| == 4 && Remainder(bits) == Add(r, p) && p < 0x10
    ensures Remainder(bits + s) == Add(X4(r), ShiftIn4(p, s))
  {
    hide Remainder, TimesX, X4, X8, Add, Push;
    BringDown(bits, s[0], r, p);
    ShortBlocks(p, s[0]);
    var p1 := Push(p, s[0]);
    BringDown(bits + [s[0]], s[1], TimesX(r), p1);
    ShortBlocks(p1, s[1]);
    var p2 := Push(p1, s[1]);
    BringDown(bits + [s[0]] + [s[1]], s[2], TimesX(TimesX(r)), p2);
    ShortBlocks(p2, s[2]);
    var p3 := Push(p2, s[2]);
    BringDown(bits + [s[0]] + [s[1]] + [s[2]], s[3], TimesX(TimesX(TimesX(r))), p3);
    assert bits + [s[0]] + [s[1]] + [s[2]] + [s[3]] == bits + s;
    PowersOfX(r);
  }

  /** Bringing down the eight coefficients of a byte multiplies by x^8 and adds the byte. */
  lemma {:induction false} BringDownByte(bits: seq<bool>, b: byte)
    ensures Remainder(bits + BitsOf(b)) == Add(X8(Remainder(bits)), b as bv16)
  {
    hide Remainder, X4, X8, ShiftIn4, Add, BitsOf;
    var s, r := BitsOf(b), Remainder(bits);
    NibblesOfByte(b);
    X8IsX4(r);
    AddZero(r);
    BringDown4(bits, s[..4], r, 0);
    BringDown4(bits + s[..4], s[4..], X4(r), ShiftIn4(0, s[..4]));
    assert bits + s[..4] + s[4..] == bits + s;
  }

  lemma NibblesOfByte(b: byte)
    ensures var s := BitsOf(b);
            |s| == 8 && ShiftIn4(0, s[..4]) < 0x10 && ShiftIn4(ShiftIn4(0, s[..4]), s[4..]) == b as bv16
  {
  }

  lemma {:induction false} RemainderZeros(bits: seq<bool>)
    ensures Remainder(bits + ZERO_BITS) == X8(X8(Remainder(bits)))
  {
    hide Remainder, X8, Add;
    BringDownByte(bits, 0);
    BringDownByte(bits + BitsOf(0), 0);
    AddZero(X8(Remainder(bits)));
    AddZero(X8(Remainder(bits + BitsOf(0))));
    assert bits + BitsOf(0) + BitsOf(0) == bits + ZERO_BITS;
  }

  /** Feeding a byte at the top of the register saves the sixteen zero coefficients after it. */
  lemma FeedAtTop(r: bv16, b: byte)
    ensures X8(X8(Add(X8(r), b as bv16))) == ByteStep(X8(X8(r)), b)
  {
    hide X8, ByteStep, Add;
    X8Linear(X8(r), b as bv16);
    SmallShift(b as bv16);
    ByteStepIsDivision(X8(X8(r)), b);
  }

  /** For every buffer the checksum is the remainder of the message polynomial times x^16. */
  lemma {:induction false} CrcIsDivision(buffer: seq<byte>)
    ensures Crc(buffer) == Remainder(Bits(buffer) + ZERO_BITS)
  {
    hide X8, ByteStep, Remainder, BitsOf, Add;
    RemainderZeros(Bits(buffer));
    if buffer == [] {
      ZeroRemainder();
    } else {
      var init, b := buffer[..|buffer| - 1], buffer[|buffer| - 1];
      CrcIsDivision(init);
      RemainderZeros(Bits(init));
      BringDownByte(Bits(init), b);
      FeedAtTop(Remainder(Bits(init)), b);
    }
  }

  lemma ZeroRemainder()
    ensures X8(X8(Remainder([]))) == 0
  {
  }

  // ---------------------------------------------------------------- linearity and error detection

  function AddByte(a: byte, b: byte): byte { a ^ b }

  function Xor(a: seq<byte>, b: seq<byte>): seq<byte>
    requires |a| == |b|
  {
    seq(|a|, i requires 0 <= i < |a| => AddByte(a[i], b[i]))
  }

  lemma ByteStepLinear(c: bv16, d: bv16, x: byte, y: byte)
    ensures ByteStep(Add(c, d), AddByte(x, y)) == Add(ByteStep(c, x), ByteStep(d, y))
  {
    hide X8, ByteStep, Add, AddByte;
    ByteStepIsDivision(Add(c, d), AddByte(x, y));
    ByteStepIsDivision(c, x);
    ByteStepIsDivision(d, y);
    X8Linear(Add(c, (x as bv16) << 8), Add(d, (y as bv16) << 8));
    Regroup(c, d, x, y);
  }

  lemma Regroup(c: bv16, d: bv16, x: byte, y: byte)
    ensures Add(Add(c, d), (AddByte(x, y) as bv16) << 8) == Add(Add(c, (x as bv16) << 8), Add(d, (y as bv16) << 8))
  {
  }

  lemma {:induction false} CrcLinear(a: seq<byte>, b: seq<byte>)
    requires |a| == |b|
    ensures Crc(Xor(a, b)) == Add(Crc(a), Crc(b))
  {
    hide ByteStep, Add, AddByte;
    if a == [] {
      AddZero(0);
    } else {
      var n := |a| - 1;
      CrcLinear(a[..n], b[..n]);
      assert Xor(a, b)[..n] == Xor(a[..n], b[..n]);
      ByteStepLinear(Crc(a[..n]), Crc(b[..n]), a[n], b[n]);
    }
  }

  lemma ByteStepInjective(c: bv16)
    ensures ByteStep(c, 0) == 0 <==> c == 0
  {
  }

  lemma TwoBytesInjective(x: byte, y: byte)
    ensures ByteStep(ByteStep(0, x), y) == 0 <==> x == 0 && y == 0
  {
  }

  /** An error pattern confined to bytes k and k+1 has a non-zero checksum. */
  lemma {:induction false} BurstHasCrc(d: seq<byte>, k: nat)
    requires k + 1 < |d|
    requires forall i :: 0 <= i < |d| && i != k && i != k + 1 ==> d[i] == 0
    ensures Crc(d) == 0 <==> d[k] == 0 && d[k + 1] == 0
  {
    hide ByteStep;
    var n := |d| - 1;
    if k + 1 < n {
      BurstHasCrc(d[..n], k);
      ByteStepInjective(Crc(d[..n]));
    } else {
      var m := n - 1;
      assert d[..n][..m] == d[..m];
      ZeroCrc(d[..m]);
      TwoBytesInjective(d[m], d[n]);
    }
  }

  lemma {:induction false} ZeroCrc(d: seq<byte>)
    requires forall i :: 0 <= i < |d| ==> d[i] == 0
    ensures Crc(d) == 0
  {
    hide ByteStep;
    if d != [] {
      ZeroCrc(d[..|d| - 1]);
      ByteStepInjective(0);
    }
  }

  /** `check` rejects every buffer of the right length that differs from the one sent only within
      two adjacent bytes. */
  lemma CheckDetectsBurst(sent: seq<byte>, received: seq<byte>, k: nat)
    requires |sent| == |received| && k + 1 < |sent|
    requires forall i :: 0 <= i < |sent| && i != k && i != k + 1 ==> sent[i] == received[i]
    ensures Check(received, Crc(sent)) <==> received == sent
  {
    hide Crc, Add, AddByte;
    var d := Xor(sent, received);
    CrcLinear(sent, received);
    forall i | 0 <= i < |sent| ensures d[i] == 0 <==> sent[i] == received[i] { SameBytes(sent[i], received[i]); }
    BurstHasCrc(d, k);
    SameWords(Crc(sent), Crc(received));
    assert received == sent <==> received[k] == sent[k] && received[k + 1] == sent[k + 1];
  }

  // ---------------------------------------------------------------- longer bursts

  /** Bit `i` of a byte, most significant first. */
  function Bit(b: byte, i: nat): bool
    requires i < 8
  {
    BitsOf(b)[i]
  }

  function Differs(sent: byte, received: byte, i: nat): bool
    requires i < 8
  {
    Bit(sent, i) != Bit(received, i)
  }

  function Masked(b: byte, m: byte): bool { b & m != 0 }

  lemma BitIs(b: byte)
    ensures Bit(b, 0) == Masked(b, 0x80) && Bit(b, 1) == Masked(b, 0x40) && Bit(b, 2) == Masked(b, 0x20)
    ensures Bit(b, 3) == Masked(b, 0x10) && Bit(b, 4) == Masked(b, 0x08) && Bit(b, 5) == Masked(b, 0x04)
    ensures Bit(b, 6) == Masked(b, 0x02) && Bit(b, 7) == Masked(b, 0x01)
  {
  }

  lemma MaskOfXor(a: byte, b: byte, m: byte)
    requires m & (m - 1) == 0
    ensures Masked(AddByte(a, b), m) <==> Masked(a, m) != Masked(b, m)
  {
    assert (a ^ b) & m == (a & m) ^ (b & m);
  }

  lemma DiffersIs(sent: byte, received: byte)
    ensures forall i :: 0 <= i < 8 ==> Differs(sent, received, i) == Bit(AddByte(sent, received), i)
  {
    hide Bit, AddByte;
    forall i | 0 <= i < 8 ensures Differs(sent, received, i) == Bit(AddByte(sent, received), i) {
      BitOfXor(sent, received, i);
    }
  }

  lemma BitOfXor(a: byte, b: byte, i: nat)
    requires i < 8
    ensures Bit(AddByte(a, b), i) <==> Bit(a, i) != Bit(b, i)
  {
    hide *;
    BitIsMasked(a, i);
    BitIsMasked(b, i);
    BitIsMasked(AddByte(a, b), i);
    OneBitMask(i);
    MaskOfXor(a, b, MaskOf(i));
  }

  function MaskOf(i: nat): byte
    requires i < 8
  {
    match i
    case 0 => 0x80
    case 1 => 0x40
    case 2 => 0x20
    case 3 => 0x10
    case 4 => 0x08
    case 5 => 0x04
    case 6 => 0x02
    case _ => 0x01
  }

  lemma OneBitMask(i: nat)
    requires i < 8
    ensures MaskOf(i) & (MaskOf(i) - 1) == 0
  {
  }

  lemma BitIsMasked(b: byte, i: nat)
    requires i < 8
    ensures Bit(b, i) == Masked(b, MaskOf(i))
  {
    hide Bit, Masked;
    BitIs(b);
  }

  /** Any two wrong bits, of the first and the last of three bytes, are less than 16 places apart. */
  ghost predicate Within16(sent: byte, received: byte, sent': byte, received': byte) {
    forall i, j :: 0 <= i < 8 && 0 <= j < 8 && Differs(sent, received, i) && Differs(sent', received', j) ==> 16 + j - i < 16
  }

  lemma BurstMasks(sent: byte, received: byte, sent': byte, received': byte)
    requires Within16(sent, received, sent', received')
    ensures Within16Bits(AddByte(sent, received), AddByte(sent', received'))
  {
    hide Bit, Within16Bits, AddByte, Differs;
    DiffersIs(sent, received);
    DiffersIs(sent', received');
    ApartMasks(AddByte(sent, received), AddByte(sent', received'));
  }

  lemma ApartMasks(x: byte, z: byte)
    requires forall i, j :: 0 <= j < 8 && j >= i >= 0 ==> !(Bit(x, i) && Bit(z, j))
    ensures Within16Bits(x, z)
  {
    hide Bit;
    BitIs(x);
    BitIs(z);
  }

  /** The error spans three bytes but at most 16 bits, as masks of its first and last byte. */
  predicate Within16Bits(x: byte, z: byte) {
    || z == 0
    || (x <= 0x7F && z & 0x7F == 0)
    || (x <= 0x3F && z & 0x3F == 0)
    || (x <= 0x1F && z & 0x1F == 0)
    || (x <= 0x0F && z & 0x0F == 0)
    || (x <= 0x07 && z & 0x07 == 0)
    || (x <= 0x03 && z & 0x03 == 0)
    || (x <= 0x01 && z & 0x01 == 0)
    || x == 0
  }

  lemma ThreeBytesInjective(x: byte, y: byte, z: byte)
    requires Within16Bits(x, z)
    ensures ByteStep(ByteStep(ByteStep(0, x), y), z) == 0 <==> x == 0 && y == 0 && z == 0
  {
  }

  lemma {:induction false} LongBurstHasCrc(d: seq<byte>, k: nat)
    requires k + 2 < |d| && Within16Bits(d[k], d[k + 2])
    requires forall i :: 0 <= i < |d| && i != k && i != k + 1 && i != k + 2 ==> d[i] == 0
    ensures Crc(d) == 0 <==> d[k] == 0 && d[k + 1] == 0 && d[k + 2] == 0
  {
    hide ByteStep, Within16Bits, Crc;
    var n := |d| - 1;
    if k + 2 < n {
      CrcSnoc(d, n);
      assert d[..n + 1] == d;
      LongBurstHasCrc(d[..n], k);
      ByteStepInjective(Crc(d[..n]));
    } else {
      CrcSnoc(d, n - 2);
      CrcSnoc(d, n - 1);
      CrcSnoc(d, n);
      assert d[..n + 1] == d;
      ZeroCrc(d[..n - 2]);
      ThreeBytesInjective(d[n - 2], d[n - 1], d[n]);
    }
  }

  /** `check` rejects every burst of up to 16 bits, at any bit offset. */
  lemma CheckDetectsLongBurst(sent: seq<byte>, received: seq<byte>, k: nat)
    requires |sent| == |received| && k + 2 < |sent|
    requires forall i :: 0 <= i < |sent| && i != k && i != k + 1 && i != k + 2 ==> sent[i] == received[i]
    requires Within16(sent[k], received[k], sent[k + 2], received[k + 2])
    ensures Check(received, Crc(sent)) <==> received == sent
  {
    hide Crc, Add, Within16Bits, Within16;
    BurstMasks(sent[k], received[k], sent[k + 2], received[k + 2]);
    var d := Xor(sent, received);
    CrcLinear(sent, received);
    forall i | 0 <= i < |sent| ensures d[i] == 0 <==> sent[i] == received[i] { SameBytes(sent[i], received[i]); }
    LongBurstHasCrc(d, k);
    SameWords(Crc(sent), Crc(received));
    assert received == sent <==>
      received[k] == sent[k] && received[k + 1] == sent[k + 1] && received[k + 2] == sent[k + 2];
  }

  // ---------------------------------------------------------------- two flipped bits

  ghost predicate OnlyDiffersAt(sent: byte, received: byte, i: nat) {
    i < 8 && forall h :: 0 <= h < 8 ==> (Differs(sent, received, h) <==> h == i)
  }

  lemma OneBit(sent: byte, received: byte, i: nat)
    requires OnlyDiffersAt(sent, received, i)
    ensures IsBit(AddByte(sent, received) as bv16)
  {
    hide Bit, Differs, IsBit, AddByte;
    DiffersIs(sent, received);
    OnlyBit(AddByte(sent, received), i);
  }

  lemma OnlyBit(e: byte, i: nat)
    requires i < 8 && forall h :: 0 <= h < 8 ==> (Bit(e, h) <==> h == i)
    ensures IsBit(e as bv16)
  {
    hide Bit;
    BitIs(e);
  }

  predicate IsBit(p: bv16) { p != 0 && p & (p - 1) == 0 }

  /** n multiplications by x^8. */
  function Shifted(n: nat, r: bv16): bv16 { if n == 0 then r else X8(Shifted(n - 1, r)) }

  lemma TimesXCommutes4(r: bv16)
    ensures TimesX(X4(r)) == X4(TimesX(r))
  {
    hide TimesX, X4, X8;
    PowersOfX(r);
    PowersOfX(TimesX(r));
  }

  lemma TimesXCommutes(r: bv16)
    ensures TimesX(X8(r)) == X8(TimesX(r))
  {
    hide TimesX, X4, X8;
    X8IsX4(r);
    X8IsX4(TimesX(r));
    TimesXCommutes4(r);
    TimesXCommutes4(X4(r));
  }

  lemma {:induction false} TimesXOfShifted(n: nat, r: bv16)
    ensures TimesX(Shifted(n, r)) == Shifted(n, TimesX(r))
  {
    hide TimesX, X8;
    if n > 0 {
      TimesXOfShifted(n - 1, r);
      TimesXCommutes(Shifted(n - 1, r));
    }
  }

  lemma NextBits(p: bv16, q: bv16)
    requires IsBit(p) && p < 0x80 && IsBit(q) && q <= p << 7
    ensures TimesX(p) == p << 1 && TimesX(q) == q << 1
    ensures IsBit(p << 1) && p < p << 1 <= 0x80 && IsBit(q << 1) && q << 1 <= (p << 1) << 7
  {
  }

  /** A bit that turns into a bit: raising both does not change that. */
  lemma {:induction false} RaiseBits(n: nat, p: bv16, q: bv16)
    requires IsBit(p) && p <= 0x80 && IsBit(q) && q <= p << 7 && Shifted(n, p) == q
    ensures IsBit(Shifted(n, 0x80)) && Shifted(n, 0x80) <= 0x4000
    decreases 0x80 - p
  {
    hide TimesX, Shifted;
    if p < 0x80 {
      NextBits(p, q);
      TimesXOfShifted(n, p);
      RaiseBits(n, p << 1, q << 1);
    }
  }

  // x^7 multiplied 1 to 128 times by x^8.
  const ROW_0: seq<bv16> := [0x8000, 0x9188, 0x1B98, 0x3B5A, 0xDD38, 0x22D0, 0xD420, 0xABF9]
  const ROW_1: seq<bv16> := [0xFD81, 0xBFB2, 0xE434, 0x89AA, 0xAAA1, 0xB5A0, 0x577E, 0x5412]
  const ROW_2: seq<bv16> := [0x0871, 0xF008, 0xE71F, 0x92C9, 0x6AFB, 0x36EC, 0xBA95, 0x9391]
  const ROW_3: seq<bv16> := [0x22DA, 0xDE20, 0x0AB3, 0x124A, 0x7873, 0x8C9F, 0xCF04, 0x2CA3]
  const ROW_4: seq<bv16> := [0x46EE, 0xC602, 0xBB8A, 0x9CB0, 0xF235, 0xFA5D, 0x1355, 0x7752]
  const ROW_5: seq<bv16> := [0x5C70, 0xEB79, 0x3545, 0x23F6, 0xE201, 0xDC6C, 0x66F1, 0xFD60]
  const ROW_6: seq<bv16> := [0x5EB2, 0x093B, 0xAA29, 0x3DA0, 0x47FE, 0xC623, 0x9A8A, 0xA8F3]
  const ROW_7: seq<bv16> := [0xC7E2, 0x4BAB, 0x52AF, 0xD5B7, 0x2CD8, 0x3DEE, 0x09FE, 0x6F29]
  const ROW_8: seq<bv16> := [0xB449, 0xAE5F, 0x0B24, 0x956B, 0xB81C, 0x3AD3, 0x4419, 0x1140]
  const ROW_9: seq<bv16> := [0x4210, 0x7886, 0x799F, 0x70BE, 0xC097, 0x4E4C, 0xE50A, 0xA78B]
  const ROW_10: seq<bv16> := [0x4E0D, 0xA40A, 0xFF6E, 0x70F0, 0x8E97, 0xE746, 0xCBC9, 0xA127]
  const ROW_11: seq<bv16> := [0x82CB, 0x7ACA, 0x15DD, 0x9F94, 0xE656, 0xCBE8, 0x8027, 0xB688]
  const ROW_12: seq<bv16> := [0x4F1D, 0xA42B, 0xDE6E, 0x44B3, 0xBB40, 0x56B0, 0x8A33, 0x03C2]
  const ROW_13: seq<bv16> := [0xF263, 0xAC5D, 0x2966, 0xD34B, 0xB01E, 0xB9DB, 0xEDF2, 0xDE83]
  const ROW_14: seq<bv16> := [0xA9B3, 0x97C3, 0x305E, 0x6853, 0xBEAE, 0xE815, 0x6926, 0xDB8F]
  const ROW_15: seq<bv16> := [0xF516, 0xA9BA, 0x9EC3, 0xA177, 0xD2CB, 0x203F, 0x1B62, 0xC15A]

  /** Each element is x^8 times the one before, the first one x^8 times `start`, and no bit below x^15. */
  predicate Follow(start: bv16, row: seq<bv16>) {
    && |row| == 8 && row[0] == X8(start)
    && (forall i :: 0 <= i < 7 ==> row[i + 1] == X8(row[i]))
    && (forall i :: 0 <= i < 8 ==> !(IsBit(row[i]) && row[i] <= 0x4000))
  }

  lemma Row0()
    ensures Follow(0x0080, ROW_0) && ROW_0[7] == 0xABF9
  {
  }

  lemma Row1()
    ensures Follow(0xABF9, ROW_1) && ROW_1[7] == 0x5412
  {
  }

  lemma Row2()
    ensures Follow(0x5412, ROW_2) && ROW_2[7] == 0x9391
  {
  }

  lemma Row3()
    ensures Follow(0x9391, ROW_3) && ROW_3[7] == 0x2CA3
  {
  }

  lemma Row4()
    ensures Follow(0x2CA3, ROW_4) && ROW_4[7] == 0x7752
  {
  }

  lemma Row5()
    ensures Follow(0x7752, ROW_5) && ROW_5[7] == 0xFD60
  {
  }

  lemma Row6()
    ensures Follow(0xFD60, ROW_6) && ROW_6[7] == 0xA8F3
  {
  }

  lemma Row7()
    ensures Follow(0xA8F3, ROW_7) && ROW_7[7] == 0x6F29
  {
  }

  lemma Row8()
    ensures Follow(0x6F29, ROW_8) && ROW_8[7] == 0x1140
  {
  }

  lemma Row9()
    ensures Follow(0x1140, ROW_9) && ROW_9[7] == 0xA78B
  {
  }

  lemma Row10()
    ensures Follow(0xA78B, ROW_10) && ROW_10[7] == 0xA127
  {
  }

  lemma Row11()
    ensures Follow(0xA127, ROW_11) && ROW_11[7] == 0xB688
  {
  }

  lemma Row12()
    ensures Follow(0xB688, ROW_12) && ROW_12[7] == 0x03C2
  {
  }

  lemma Row13()
    ensures Follow(0x03C2, ROW_13) && ROW_13[7] == 0xDE83
  {
  }

  lemma Row14()
    ensures Follow(0xDE83, ROW_14) && ROW_14[7] == 0xDB8F
  {
  }

  lemma Row15()
    ensures Follow(0xDB8F, ROW_15) && ROW_15[7] == 0xC15A
  {
  }

  lemma FollowAt(start: bv16, row: seq<bv16>, i: nat)
    requires Follow(start, row) && i < 8
    ensures row[i] == if i == 0 then X8(start) else X8(row[i - 1])
  {
    if i > 0 { assert row[i - 1 + 1] == X8(row[i - 1]); }
  }

  lemma {:induction false} ShiftedFollows(n: nat, row: seq<bv16>, i: nat)
    requires Follow(Shifted(n, 0x80), row) && i < 8
    ensures Shifted(n + i + 1, 0x80) == row[i]
  {
    hide X8, IsBit, Follow, Shifted;
    FollowAt(Shifted(n, 0x80), row, i);
    ShiftedNext(n + i, 0x80);
    if i > 0 { ShiftedFollows(n, row, i - 1); }
  }

  predicate NoLowBit(m: nat) { !(IsBit(Shifted(m, 0x80)) && Shifted(m, 0x80) <= 0x4000) }

  lemma NoBitInRow(n: nat, row: seq<bv16>)
    requires Follow(Shifted(n, 0x80), row)
    ensures forall m :: n < m <= n + 8 ==> NoLowBit(m)
    ensures Shifted(n + 8, 0x80) == row[7]
  {
    hide X8, IsBit, Shifted;
    forall m | n < m <= n + 8 ensures NoLowBit(m) { ShiftedFollows(n, row, m - n - 1); }
    ShiftedFollows(n, row, 7);
  }

  /** x^7 times x^8, up to 128 times over, is no bit below x^15. */
  lemma NoBit(m: nat)
    requires 1 <= m <= 128
    ensures NoLowBit(m)
  {
    hide Follow, Shifted, NoLowBit;
    assert Shifted(0, 0x80) == 0x80 by { ShiftedZero(0x80); }
    Row0();
    NoBitInRow(0, ROW_0);
    Row1();
    NoBitInRow(8, ROW_1);
    Row2();
    NoBitInRow(16, ROW_2);
    Row3();
    NoBitInRow(24, ROW_3);
    Row4();
    NoBitInRow(32, ROW_4);
    Row5();
    NoBitInRow(40, ROW_5);
    Row6();
    NoBitInRow(48, ROW_6);
    Row7();
    NoBitInRow(56, ROW_7);
    Row8();
    NoBitInRow(64, ROW_8);
    Row9();
    NoBitInRow(72, ROW_9);
    Row10();
    NoBitInRow(80, ROW_10);
    Row11();
    NoBitInRow(88, ROW_11);
    Row12();
    NoBitInRow(96, ROW_12);
    Row13();
    NoBitInRow(104, ROW_13);
    Row14();
    NoBitInRow(112, ROW_14);
    Row15();
    NoBitInRow(120, ROW_15);
  }

  // ---------------------------------------------------------------- two flipped bits in a buffer

  lemma X8IsZero(r: bv16)
    ensures X8(r) == 0 <==> r == 0
  {
  }

  lemma X8Injective(a: bv16, b: bv16)
    ensures X8(a) == X8(b) <==> a == b
  {
    hide X8, Add;
    X8Linear(a, b);
    X8IsZero(Add(a, b));
    SameWords(a, b);
    SameWords(X8(a), X8(b));
  }

  /** The checksum of one wrong byte at i, as far as byte j. */
  lemma {:induction false} OneByteShifts(d: seq<byte>, i: nat, j: nat)
    requires i < j <= |d| && forall k :: 0 <= k < j && k != i ==> d[k] == 0
    ensures Crc(d[..j]) == Shifted(j - i + 1, d[i] as bv16)
    decreases j
  {
    hide ByteStep, X8, Crc, Add, Shifted;
    CrcSnoc(d, j - 1);
    ByteStepIsDivision(Crc(d[..j - 1]), d[j - 1]);
    if i + 1 == j {
      ZeroCrc(d[..i]);
      SmallShift(d[i] as bv16);
      ZeroAdd((d[i] as bv16) << 8);
      ShiftedZero(d[i] as bv16);
      ShiftedNext(0, d[i] as bv16);
      ShiftedNext(1, d[i] as bv16);
    } else {
      OneByteShifts(d, i, j - 1);
      AddZero(Crc(d[..j - 1]));
      ShiftedNext(j - i, d[i] as bv16);
    }
  }

  lemma ZeroAdd(r: bv16)
    ensures Add(0, r) == r
  {
  }

  lemma ByteBit(e: byte)
    requires IsBit(e as bv16)
    ensures 0 < e as bv16 <= 0x80 && 0x80 <= (e as bv16) << 7
  {
  }

  /** Bits flipped in bytes i and j, at most 127 bytes apart, leave a checksum. */
  lemma {:induction false} TwoBitsHaveCrc(d: seq<byte>, i: nat, j: nat)
    requires i < j < |d| && j - i <= 127 && IsBit(d[i] as bv16) && IsBit(d[j] as bv16)
    requires forall k :: 0 <= k < |d| && k != i && k != j ==> d[k] == 0
    ensures Crc(d) != 0
    decreases |d|
  {
    hide ByteStep, IsBit, X8, Add, Shifted;
    var n := |d| - 1;
    if j < n {
      TwoBitsHaveCrc(d[..n], i, j);
      ByteStepInjective(Crc(d[..n]));
    } else {
      var p, q := d[i] as bv16, d[j] as bv16;
      OneByteShifts(d, i, j);
      CrcSnoc(d, j);
      assert d[..j + 1] == d;
      ByteStepIsDivision(Crc(d[..j]), d[j]);
      ByteBit(d[i]);
      ByteBit(d[j]);
      SmallShift(q);
      var m := j - i;
      assert Crc(d) == X8(Add(Shifted(m + 1, p), X8(q)));
      X8IsZero(Add(Shifted(m + 1, p), X8(q)));
      SameWords(Shifted(m + 1, p), X8(q));
      ShiftedNext(m, p);
      X8Injective(Shifted(m, p), q);
      if Shifted(m, p) == q {
        RaiseBits(m, p, q);
        NoBit(m);
      }
    }
  }

  lemma ShiftedZero(r: bv16)
    ensures Shifted(0, r) == r
  {
  }

  lemma ShiftedNext(n: nat, r: bv16)
    ensures Shifted(n + 1, r) == X8(Shifted(n, r))
  {
  }

  lemma ChangedByte(a: byte, b: byte)
    ensures AddByte(a, b) == a ^ b
  {
  }

  /** In a buffer of up to 128 bytes, `check` rejects any two flipped bits in different bytes (two in one
      byte are a short burst). */
  lemma CheckDetectsTwoBits(sent: seq<byte>, received: seq<byte>, i: nat, j: nat)
    requires |sent| == |received| <= 128 && i < j < |sent|
    requires forall k :: 0 <= k < |sent| && k != i && k != j ==> sent[k] == received[k]
    requires exists a, b :: OnlyDiffersAt(sent[i], received[i], a) && OnlyDiffersAt(sent[j], received[j], b)
    ensures !Check(received, Crc(sent))
  {
    hide Crc, Add, AddByte, IsBit, OnlyDiffersAt;
    var a, b :| OnlyDiffersAt(sent[i], received[i], a) && OnlyDiffersAt(sent[j], received[j], b);
    OneBit(sent[i], received[i], a);
    OneBit(sent[j], received[j], b);
    var d := Xor(sent, received);
    CrcLinear(sent, received);
    ChangedByte(sent[i], received[i]);
    ChangedByte(sent[j], received[j]);
    forall k | 0 <= k < |sent| && k != i && k != j ensures d[k] == 0 { SameBytes(sent[k], received[k]); }
    TwoBitsHaveCrc(d, i, j);
    SameWords(Crc(sent), Crc(received));
  }

  lemma SameBytes(a: byte, b: byte)
    ensures AddByte(a, b) == 0 <==> a == b
  {
  }

  lemma SameWords(a: bv16, b: bv16)
    ensures Add(a, b) == 0 <==> a == b
  {
    hide *;
    AddIs(a, b);
    SameXor(a, b);
  }

  lemma SameXor(a: bv16, b: bv16)
    ensures a ^ b == 0 <==> a == b
  {
    hide *;
  }
}
