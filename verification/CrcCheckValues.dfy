/** The check values of the named formulas: what each makes of the nine characters "123456789".
    A register of n bits is laid at the top of a bv32, where a step is quick to compute. */
module CrcCheckValues {
  import opened BitWords
  import opened CrcDivision
  import opened CrcDetail
  import opened CrcDrivers
  import opened CrcChecksum
  import opened CrcStandards

  // ----- Words and bit-vectors

  predicate Top(v: bv32) {
    v & 0x8000_0000 != 0
  }

  function Shift(v: bv32): bv32 {
    v << 1
  }

  function Add(a: bv32, b: bv32): bv32 {
    a ^ b
  }

  /** The bit i places below the top. */
  predicate Below(v: bv32, i: nat)
    decreases i
  {
    if i == 0 then Top(v) else Below(Shift(v), i - 1)
  }

  lemma {:induction false} TopOfAdd(a: bv32, b: bv32)
    ensures Top(Add(a, b)) == (Top(a) != Top(b))
  {
  }

  lemma {:induction false} ShiftOfAdd(a: bv32, b: bv32)
    ensures Shift(Add(a, b)) == Add(Shift(a), Shift(b))
  {
  }

  lemma {:induction false} BelowAdd(a: bv32, b: bv32, i: nat)
    ensures Below(Add(a, b), i) == (Below(a, i) != Below(b, i))
    decreases i
  {
    hide Top, Shift, Add;
    TopOfAdd(a, b);
    ShiftOfAdd(a, b);
    if i > 0 {
      BelowAdd(Shift(a), Shift(b), i - 1);
    }
  }

  function Register(n: nat, v: bv32): (w: Word)
    ensures |w| == n
    ensures forall i {:trigger w[i]} :: 0 <= i < n ==> w[i] == Below(v, n - 1 - i)
  {
    seq(n, i requires 0 <= i < n => Below(v, n - 1 - i))
  }

  /** Nothing below the register. */
  ghost predicate Clean(n: nat, v: bv32) {
    forall i: nat :: i >= n ==> !Below(v, i)
  }

  function StepBv(p: bv32, r: bv32, bit: bool): bv32 {
    if Top(r) != bit then Add(Shift(r), p) else Shift(r)
  }

  lemma {:induction false} StepBelow(p: bv32, r: bv32, bit: bool, i: nat)
    ensures Below(StepBv(p, r, bit), i) == (Below(r, i + 1) != (Below(p, i) && Top(r) != bit))
  {
    hide Top, Shift, Add;
    BelowAdd(Shift(r), p, i);
  }

  lemma {:induction false} StepRegister(n: nat, p: bv32, r: bv32, bit: bool)
    requires n > 0 && Clean(n, p) && Clean(n, r)
    ensures Clean(n, StepBv(p, r, bit))
    ensures Step(Register(n, p), Register(n, r), bit) == Register(n, StepBv(p, r, bit))
  {
    hide StepBv, Top, Shift, Add;
    forall i: nat
      ensures Below(StepBv(p, r, bit), i) == (Below(r, i + 1) != (Below(p, i) && Top(r) != bit))
    {
      StepBelow(p, r, bit, i);
    }
    assert Below(r, 0) == Top(r);
  }

  // ----- Nine digits

  function PartBv(p: bv32, r: bv32, bits: seq<bool>, k: nat): bv32
    requires k <= |bits|
  {
    if k == 0 then r else StepBv(p, PartBv(p, r, bits, k - 1), bits[k - 1])
  }

  lemma {:induction false} PartRegister(n: nat, p: bv32, r: bv32, bits: seq<bool>, k: nat)
    requires n > 0 && Clean(n, p) && Clean(n, r) && k <= |bits|
    ensures Clean(n, PartBv(p, r, bits, k))
    ensures Feed(Register(n, p), Register(n, r), bits[..k]) == Register(n, PartBv(p, r, bits, k))
    decreases k
  {
    hide StepBv, Clean, Step, Register;
    FeedPrefix(Register(n, p), Register(n, r), bits, 0);
    if k > 0 {
      PartRegister(n, p, r, bits, k - 1);
      FeedPrefix(Register(n, p), Register(n, r), bits, k - 1);
      StepRegister(n, p, PartBv(p, r, bits, k - 1), bits[k - 1]);
    }
  }

  /** Eight steps, written out to be computed. */
  function Eight(p: bv32, r: bv32, b: seq<bool>): bv32
    requires |b| == 8
  {
    var r1 := StepBv(p, r, b[0]);
    var r2 := StepBv(p, r1, b[1]);
    var r3 := StepBv(p, r2, b[2]);
    var r4 := StepBv(p, r3, b[3]);
    var r5 := StepBv(p, r4, b[4]);
    var r6 := StepBv(p, r5, b[5]);
    var r7 := StepBv(p, r6, b[6]);
    StepBv(p, r7, b[7])
  }

  lemma {:induction false} EightIsPart(p: bv32, r: bv32, b: seq<bool>)
    requires |b| == 8
    ensures Eight(p, r, b) == PartBv(p, r, b, 8)
  {
    hide StepBv;
    assert PartBv(p, r, b, 1) == StepBv(p, r, b[0]);
    var r2 := PartBv(p, r, b, 2);
    assert r2 == StepBv(p, StepBv(p, r, b[0]), b[1]);
    assert PartBv(p, r, b, 3) == StepBv(p, r2, b[2]);
    var r4 := PartBv(p, r, b, 4);
    assert r4 == StepBv(p, StepBv(p, r2, b[2]), b[3]);
    assert PartBv(p, r, b, 5) == StepBv(p, r4, b[4]);
    var r6 := PartBv(p, r, b, 6);
    assert r6 == StepBv(p, StepBv(p, r4, b[4]), b[5]);
    assert PartBv(p, r, b, 7) == StepBv(p, r6, b[6]);
  }

  /** The characters '1', '2', and so on. */
  function Digits(count: nat): (message: seq<Byte>)
    requires count <= 9
    ensures |message| == count
  {
    seq(count, i requires 0 <= i < count => ByteOf(0x31 + i))
  }

  function DigitBits(digit: nat): (bits: Byte) {
    match digit
    case 1 => [true, false, false, false, true, true, false, false]
    case 2 => [false, true, false, false, true, true, false, false]
    case 3 => [true, true, false, false, true, true, false, false]
    case 4 => [false, false, true, false, true, true, false, false]
    case 5 => [true, false, true, false, true, true, false, false]
    case 6 => [false, true, true, false, true, true, false, false]
    case 7 => [true, true, true, false, true, true, false, false]
    case 8 => [false, false, false, true, true, true, false, false]
    case _ => [true, false, false, true, true, true, false, false]
  }

  function MirroredDigitBits(digit: nat): (bits: Byte) {
    match digit
    case 1 => [false, false, true, true, false, false, false, true]
    case 2 => [false, false, true, true, false, false, true, false]
    case 3 => [false, false, true, true, false, false, true, true]
    case 4 => [false, false, true, true, false, true, false, false]
    case 5 => [false, false, true, true, false, true, false, true]
    case 6 => [false, false, true, true, false, true, true, false]
    case 7 => [false, false, true, true, false, true, true, true]
    case 8 => [false, false, true, true, true, false, false, false]
    case _ => [false, false, true, true, true, false, false, true]
  }

  function ReadDigit(digit: nat, lowFirst: bool): (bits: seq<bool>)
    ensures |bits| == 8
  {
    if lowFirst then DigitBits(digit) else MirroredDigitBits(digit)
  }

  function Value(b: bool): nat {
    if b then 1 else 0
  }

  lemma {:induction false} ToNatFrom(w: Word, k: nat)
    requires k < |w|
    ensures ToNat(w[k..]) == Value(w[k]) + 2 * ToNat(w[k + 1..])
    ensures ToNat(w[|w|..]) == 0
  {
    assert w[k..][1..] == w[k + 1..];
  }

  lemma {:induction false} ToNatFour(w: Word, k: nat)
    requires k + 4 <= |w|
    ensures ToNat(w[k..]) == Value(w[k]) + 2 * Value(w[k + 1]) + 4 * Value(w[k + 2]) + 8 * Value(w[k + 3])
                             + 16 * ToNat(w[k + 4..])
    ensures ToNat(w[|w|..]) == 0
  {
    hide ToNat, Value;
    ToNatFrom(w, k);
    ToNatFrom(w, k + 1);
    ToNatFrom(w, k + 2);
    ToNatFrom(w, k + 3);
  }

  lemma {:induction false} ByteValue(w: Byte)
    ensures ToNat(w) == Value(w[0]) + 2 * Value(w[1]) + 4 * Value(w[2]) + 8 * Value(w[3])
      + 16 * (Value(w[4]) + 2 * Value(w[5]) + 4 * Value(w[6]) + 8 * Value(w[7]))
  {
    hide ToNat, Value;
    assert w[0..] == w;
    ToNatFour(w, 0);
    ToNatFour(w, 4);
  }

  lemma {:induction false} DigitValue(digit: nat)
    requires 1 <= digit <= 9
    ensures ToNat(DigitBits(digit)) == 0x30 + digit
  {
    hide ToNat;
    ByteValue(DigitBits(digit));
  }

  lemma {:induction false} DigitLow(digit: nat)
    requires 1 <= digit <= 9
    ensures ByteOf(0x30 + digit) == DigitBits(digit)
  {
    var w := DigitBits(digit);
    DigitValue(digit);
    EveryByte(w);
    hide ByteOf, DigitBits;
  }

  lemma {:induction false} DigitMirrors(digit: nat)
    requires 1 <= digit <= 9
    ensures MirroredDigitBits(digit) == Reversed(DigitBits(digit))
  {
    var b := DigitBits(digit);
    assert MirroredDigitBits(digit) == [b[7], b[6], b[5], b[4], b[3], b[2], b[1], b[0]];
  }

  lemma {:induction false} DigitReads(digit: nat, lowFirst: bool)
    requires 1 <= digit <= 9
    ensures ByteBits(lowFirst, ByteOf(0x30 + digit)) == ReadDigit(digit, lowFirst)
  {
    hide ByteOf, DigitBits, MirroredDigitBits, Reversed;
    DigitLow(digit);
    DigitMirrors(digit);
  }

  function RunBv(p: bv32, r: bv32, lowFirst: bool, count: nat): bv32 {
    if count == 0 then r else PartBv(p, RunBv(p, r, lowFirst, count - 1), ReadDigit(count, lowFirst), 8)
  }

  lemma {:induction false} NoDigits(lowFirst: bool)
    ensures MessageBits(lowFirst, Digits(0)) == []
  {
  }

  lemma {:induction false} OneMoreDigit(lowFirst: bool, count: nat)
    requires 0 < count <= 9
    ensures MessageBits(lowFirst, Digits(count))
         == MessageBits(lowFirst, Digits(count - 1)) + ReadDigit(count, lowFirst)
  {
    hide ByteOf, ByteBits, ReadDigit;
    DigitReads(count, lowFirst);
    assert Digits(count)[..count - 1] == Digits(count - 1);
  }

  lemma {:induction false} RunDigits(n: nat, p: bv32, r: bv32, lowFirst: bool, count: nat)
    requires n > 0 && Clean(n, p) && Clean(n, r) && count <= 9
    ensures Clean(n, RunBv(p, r, lowFirst, count))
    ensures Feed(Register(n, p), Register(n, r), MessageBits(lowFirst, Digits(count)))
         == Register(n, RunBv(p, r, lowFirst, count))
    decreases count
  {
    hide PartBv, Clean, Register, ReadDigit, MessageBits, Digits;
    if count == 0 {
      NoDigits(lowFirst);
      FeedPrefix(Register(n, p), Register(n, r), [], 0);
    } else {
      var before, bits := RunBv(p, r, lowFirst, count - 1), ReadDigit(count, lowFirst);
      RunDigits(n, p, r, lowFirst, count - 1);
      PartRegister(n, p, before, bits, 8);
      assert bits[..8] == bits;
      OneMoreDigit(lowFirst, count);
      FeedConcat(Register(n, p), Register(n, r), MessageBits(lowFirst, Digits(count - 1)), bits);
    }
  }

  // ----- Numbers

  lemma {:induction false} FromNatStep(v: nat, width: nat)
    requires v < Pow2(width) && width > 0
    ensures v / 2 < Pow2(width - 1) && FromNat(v, width) == [v % 2 == 1] + FromNat(v / 2, width - 1)
  {
  }

  /** The n top bits put behind the number acc, highest first. */
  function ReadDown(v: bv32, n: nat, acc: nat): nat
    decreases n
  {
    if n == 0 then acc else ReadDown(Shift(v), n - 1, 2 * acc + if Top(v) then 1 else 0)
  }

  /** The n top bits put in front of the number acc, lowest first; weight is the next place. */
  function ReadUp(v: bv32, n: nat, acc: nat, weight: nat): nat
    decreases n
  {
    if n == 0 then acc else ReadUp(Shift(v), n - 1, if Top(v) then acc + weight else acc, 2 * weight)
  }

  lemma {:induction false} RegisterSplits(v: bv32, n: nat)
    requires n > 0
    ensures Register(n, v) == Register(n - 1, Shift(v)) + [Top(v)]
    ensures Reversed(Register(n, v)) == [Top(v)] + Reversed(Register(n - 1, Shift(v)))
  {
    hide Top, Shift;
    assert forall i: nat :: Below(v, i + 1) == Below(Shift(v), i);
    var w, x := Register(n, v), Register(n - 1, Shift(v));
    assert w == x + [Top(v)];
    assert Reversed(w) == [Top(v)] + Reversed(x);
  }

  lemma {:induction false} PutBehind(acc: nat, k: nat, b: bool)
    requires acc < Pow2(k)
    ensures var next := 2 * acc + if b then 1 else 0;
      next < Pow2(k + 1) && FromNat(next, k + 1) == [b] + FromNat(acc, k)
  {
    var w := FromNat(acc, k);
    var x := [b] + w;
    assert x[1..] == w;
    FromToNat(x);
  }

  lemma {:induction false} RegisterReads(v: bv32, n: nat, acc: nat, k: nat)
    requires acc < Pow2(k)
    ensures ReadDown(v, n, acc) < Pow2(n + k)
    ensures FromNat(ReadDown(v, n, acc), n + k) == Register(n, v) + FromNat(acc, k)
    decreases n
  {
    hide Top, Shift, Register, FromNat, Pow2;
    if n == 0 {
      assert Register(0, v) == [];
    } else {
      PutBehind(acc, k, Top(v));
      RegisterReads(Shift(v), n - 1, 2 * acc + if Top(v) then 1 else 0, k + 1);
      RegisterSplits(v, n);
    }
  }

  lemma {:induction false} ToNatAppend(w: Word, b: bool)
    ensures ToNat(w + [b]) == ToNat(w) + if b then Pow2(|w|) else 0
    decreases |w|
  {
    if |w| > 0 {
      ToNatAppend(w[1..], b);
      assert (w + [b])[1..] == w[1..] + [b];
    } else {
      assert w + [b] == [b] && [b][1..] == [];
    }
  }

  lemma {:induction false} PutInFront(acc: nat, k: nat, b: bool)
    requires acc < Pow2(k)
    ensures var next := if b then acc + Pow2(k) else acc;
      next < Pow2(k + 1) && FromNat(next, k + 1) == FromNat(acc, k) + [b]
  {
    hide ToNat, FromNat, Pow2;
    var w := FromNat(acc, k);
    ToNatAppend(w, b);
    FromToNat(w + [b]);
  }

  lemma {:induction false} TwiceHalf(k: nat)
    requires k > 0
    ensures Pow2(k) == 2 * Pow2(k - 1)
  {
  }

  lemma {:induction false} ReversedReads(v: bv32, n: nat, acc: nat, k: nat)
    requires acc < Pow2(k)
    ensures ReadUp(v, n, acc, Pow2(k)) < Pow2(k + n)
    ensures FromNat(ReadUp(v, n, acc, Pow2(k)), k + n) == FromNat(acc, k) + Reversed(Register(n, v))
    decreases n
  {
    hide Top, Shift, Register, Reversed, FromNat, Pow2;
    if n == 0 {
      assert Reversed(Register(0, v)) == [];
    } else {
      TwiceHalf(k + 1);
      PutInFront(acc, k, Top(v));
      ReversedReads(Shift(v), n - 1, if Top(v) then acc + Pow2(k) else acc, k + 1);
      RegisterSplits(v, n);
    }
  }

  lemma {:induction false} FromNatLow(number: nat, k: nat, width: nat)
    requires number < Pow2(k) && k <= width && number < Pow2(width)
    ensures Resize(FromNat(number, width), k) == FromNat(number, k)
    decreases width
  {
    if k > 0 {
      FromNatLow(number / 2, k - 1, width - 1);
      FromNatStep(number, width);
      FromNatStep(number, k);
      assert Resize(FromNat(number, width), k)
          == [number % 2 == 1] + Resize(FromNat(number / 2, width - 1), k - 1);
    }
  }

  // ----- The formulas

  function TopPoly(f: Standard): bv32 {
    match f
    case Crc16 => 0x8005_0000
    case CcittFalse => 0x1021_0000
    case CcittTrue => 0x1021_0000
    case XmodemType => 0x8408_0000
    case Xmodem => 0x1021_0000
    case Crc32 => 0x04C1_1DB7
  }

  function TopStart(f: Standard): bv32 {
    match f
    case CcittFalse => 0xFFFF_0000
    case Crc32 => 0xFFFF_FFFF
    case _ => 0
  }

  function TopMask(f: Standard): bv32 {
    if f == Crc32 then 0xFFFF_FFFF else 0
  }

  /** The register after all nine digits. */
  function TopEnd(f: Standard): bv32 {
    match f
    case Crc16 => 0xBCDD_0000
    case CcittFalse => 0x29B1_0000
    case CcittTrue => 0x9184_0000
    case XmodemType => 0xCE30_0000
    case Xmodem => 0x31C3_0000
    case Crc32 => 0x9B63_D02C
  }

  /** As published for five of the formulas; crc_xmodem_type is no published standard, and its
      value is what the original's parameters give. */
  function CheckValue(f: Standard): nat {
    match f
    case Crc16 => 0xBB3D
    case CcittFalse => 0x29B1
    case CcittTrue => 0x2189
    case XmodemType => 0x0C73
    case Xmodem => 0x31C3
    case Crc32 => 0xCBF4_3926
  }

  lemma {:induction false} Reads(p: bv32, r: bv32, lowFirst: bool, k: nat, before: bv32, after: bv32)
    requires k > 0 && RunBv(p, r, lowFirst, k - 1) == before
    requires Eight(p, before, ReadDigit(k, lowFirst)) == after
    ensures RunBv(p, r, lowFirst, k) == after
  {
    EightIsPart(p, before, ReadDigit(k, lowFirst));
  }

  lemma {:induction false} ReadsNothing(p: bv32, r: bv32, lowFirst: bool)
    ensures RunBv(p, r, lowFirst, 0) == r
  {
  }

  lemma {:induction false} RunCrc16()
    ensures RunBv(0x8005_0000, 0x0000_0000, true, 9) == 0xBCDD_0000
  {
    hide RunBv;
    ReadsNothing(0x8005_0000, 0x0000_0000, true);
    Reads(0x8005_0000, 0x0000_0000, true, 1, 0x0000_0000, 0x832B_0000);
    Reads(0x8005_0000, 0x0000_0000, true, 2, 0x832B_0000, 0x29A2_0000);
    Reads(0x8005_0000, 0x0000_0000, true, 3, 0x29A2_0000, 0x205D_0000);
    Reads(0x8005_0000, 0x0000_0000, true, 4, 0x205D_0000, 0x5D28_0000);
    Reads(0x8005_0000, 0x0000_0000, true, 5, 0x5D28_0000, 0xAA25_0000);
    Reads(0x8005_0000, 0x0000_0000, true, 6, 0xAA25_0000, 0x2794_0000);
    Reads(0x8005_0000, 0x0000_0000, true, 7, 0x2794_0000, 0x16B9_0000);
    Reads(0x8005_0000, 0x0000_0000, true, 8, 0x16B9_0000, 0xB93C_0000);
    Reads(0x8005_0000, 0x0000_0000, true, 9, 0xB93C_0000, 0xBCDD_0000);
  }

  lemma {:induction false} RunCcittFalse()
    ensures RunBv(0x1021_0000, 0xFFFF_0000, false, 9) == 0x29B1_0000
  {
    hide RunBv;
    ReadsNothing(0x1021_0000, 0xFFFF_0000, false);
    Reads(0x1021_0000, 0xFFFF_0000, false, 1, 0xFFFF_0000, 0xC782_0000);
    Reads(0x1021_0000, 0xFFFF_0000, false, 2, 0xC782_0000, 0x3DBA_0000);
    Reads(0x1021_0000, 0xFFFF_0000, false, 3, 0x3DBA_0000, 0x5BCE_0000);
    Reads(0x1021_0000, 0xFFFF_0000, false, 4, 0x5BCE_0000, 0x5349_0000);
    Reads(0x1021_0000, 0xFFFF_0000, false, 5, 0x5349_0000, 0x4560_0000);
    Reads(0x1021_0000, 0xFFFF_0000, false, 6, 0x4560_0000, 0x2EF4_0000);
    Reads(0x1021_0000, 0xFFFF_0000, false, 7, 0x2EF4_0000, 0x7718_0000);
    Reads(0x1021_0000, 0xFFFF_0000, false, 8, 0x7718_0000, 0xA12B_0000);
    Reads(0x1021_0000, 0xFFFF_0000, false, 9, 0xA12B_0000, 0x29B1_0000);
  }

  lemma {:induction false} RunCcittTrue()
    ensures RunBv(0x1021_0000, 0x0000_0000, true, 9) == 0x9184_0000
  {
    hide RunBv;
    ReadsNothing(0x1021_0000, 0x0000_0000, true);
    Reads(0x1021_0000, 0x0000_0000, true, 1, 0x0000_0000, 0x5004_0000);
    Reads(0x1021_0000, 0x0000_0000, true, 2, 0x5004_0000, 0xD7BD_0000);
    Reads(0x1021_0000, 0x0000_0000, true, 3, 0xD7BD_0000, 0x1E5A_0000);
    Reads(0x1021_0000, 0x0000_0000, true, 4, 0x1E5A_0000, 0x4C11_0000);
    Reads(0x1021_0000, 0x0000_0000, true, 5, 0x4C11_0000, 0xEC2E_0000);
    Reads(0x1021_0000, 0x0000_0000, true, 6, 0xEC2E_0000, 0xBF88_0000);
    Reads(0x1021_0000, 0x0000_0000, true, 7, 0xBF88_0000, 0xE296_0000);
    Reads(0x1021_0000, 0x0000_0000, true, 8, 0xE296_0000, 0x98D1_0000);
    Reads(0x1021_0000, 0x0000_0000, true, 9, 0x98D1_0000, 0x9184_0000);
  }

  lemma {:induction false} RunXmodemType()
    ensures RunBv(0x8408_0000, 0x0000_0000, true, 9) == 0xCE30_0000
  {
    hide RunBv;
    ReadsNothing(0x8408_0000, 0x0000_0000, true);
    Reads(0x8408_0000, 0x0000_0000, true, 1, 0x0000_0000, 0x53A8_0000);
    Reads(0x8408_0000, 0x0000_0000, true, 2, 0x53A8_0000, 0x7CA8_0000);
    Reads(0x8408_0000, 0x0000_0000, true, 3, 0x7CA8_0000, 0x5AE8_0000);
    Reads(0x8408_0000, 0x0000_0000, true, 4, 0x5AE8_0000, 0x82D0_0000);
    Reads(0x8408_0000, 0x0000_0000, true, 5, 0x82D0_0000, 0x01A0_0000);
    Reads(0x8408_0000, 0x0000_0000, true, 6, 0x01A0_0000, 0x8240_0000);
    Reads(0x8408_0000, 0x0000_0000, true, 7, 0x8240_0000, 0x6A50_0000);
    Reads(0x8408_0000, 0x0000_0000, true, 8, 0x6A50_0000, 0x3AD0_0000);
    Reads(0x8408_0000, 0x0000_0000, true, 9, 0x3AD0_0000, 0xCE30_0000);
  }

  lemma {:induction false} RunXmodem()
    ensures RunBv(0x1021_0000, 0x0000_0000, false, 9) == 0x31C3_0000
  {
    hide RunBv;
    ReadsNothing(0x1021_0000, 0x0000_0000, false);
    Reads(0x1021_0000, 0x0000_0000, false, 1, 0x0000_0000, 0x2672_0000);
    Reads(0x1021_0000, 0x0000_0000, false, 2, 0x2672_0000, 0x20B5_0000);
    Reads(0x1021_0000, 0x0000_0000, false, 3, 0x20B5_0000, 0x9752_0000);
    Reads(0x1021_0000, 0x0000_0000, false, 4, 0x9752_0000, 0xD789_0000);
    Reads(0x1021_0000, 0x0000_0000, false, 5, 0xD789_0000, 0x546C_0000);
    Reads(0x1021_0000, 0x0000_0000, false, 6, 0x546C_0000, 0x20E4_0000);
    Reads(0x1021_0000, 0x0000_0000, false, 7, 0x20E4_0000, 0x86D6_0000);
    Reads(0x1021_0000, 0x0000_0000, false, 8, 0x86D6_0000, 0x9015_0000);
    Reads(0x1021_0000, 0x0000_0000, false, 9, 0x9015_0000, 0x31C3_0000);
  }

  lemma {:induction false} RunCrc32()
    ensures RunBv(0x04C1_1DB7, 0xFFFF_FFFF, true, 9) == 0x9B63_D02C
  {
    hide RunBv;
    ReadsNothing(0x04C1_1DB7, 0xFFFF_FFFF, true);
    Reads(0x04C1_1DB7, 0xFFFF_FFFF, true, 1, 0xFFFF_FFFF, 0x1208_C43E);
    Reads(0x04C1_1DB7, 0xFFFF_FFFF, true, 2, 0x1208_C43E, 0x4CDD_350D);
    Reads(0x04C1_1DB7, 0xFFFF_FFFF, true, 3, 0x4CDD_350D, 0xB439_EDEE);
    Reads(0x04C1_1DB7, 0xFFFF_FFFF, true, 4, 0xB439_EDEE, 0x3AF8_3826);
    Reads(0x04C1_1DB7, 0xFFFF_FFFF, true, 5, 0x3AF8_3826, 0xC7A3_502C);
    Reads(0x04C1_1DB7, 0xFFFF_FFFF, true, 6, 0xC7A3_502C, 0x7934_B16F);
    Reads(0x04C1_1DB7, 0xFFFF_FFFF, true, 7, 0x7934_B16F, 0x0669_3FF5);
    Reads(0x04C1_1DB7, 0xFFFF_FFFF, true, 8, 0x0669_3FF5, 0x0AA4_F8A6);
    Reads(0x04C1_1DB7, 0xFFFF_FFFF, true, 9, 0x0AA4_F8A6, 0x9B63_D02C);
  }

  lemma {:induction false} Runs(f: Standard)
    ensures RunBv(TopPoly(f), TopStart(f), Reflected(f), 9) == TopEnd(f)
  {
    hide RunBv;
    match f
    case Crc16 => RunCrc16();
    case CcittFalse => RunCcittFalse();
    case CcittTrue => RunCcittTrue();
    case XmodemType => RunXmodemType();
    case Xmodem => RunXmodem();
    case Crc32 => RunCrc32();
  }

  lemma {:induction false} Down8005()
    ensures ReadDown(0x8005_0000, 16, 0) == 0x8005
  {
    assert ReadDown(0x0500_0000, 8, 0x80) == 0x8005;
  }

  lemma {:induction false} Down1021()
    ensures ReadDown(0x1021_0000, 16, 0) == 0x1021
  {
    assert ReadDown(0x2100_0000, 8, 0x10) == 0x1021;
  }

  lemma {:induction false} Down8408()
    ensures ReadDown(0x8408_0000, 16, 0) == 0x8408
  {
    assert ReadDown(0x0800_0000, 8, 0x84) == 0x8408;
  }

  lemma {:induction false} Down04C11DB7()
    ensures ReadDown(0x04C1_1DB7, 32, 0) == 0x04C1_1DB7
  {
    assert ReadDown(0xB700_0000, 8, 0x4C11D) == 0x04C1_1DB7;
    assert ReadDown(0x1DB7_0000, 16, 0x4C1) == 0x04C1_1DB7;
    assert ReadDown(0xC11D_B700, 24, 0x4) == 0x04C1_1DB7;
  }

  lemma {:induction false} DownFFFF()
    ensures ReadDown(0xFFFF_0000, 16, 0) == 0xFFFF
  {
    assert ReadDown(0xFF00_0000, 8, 0xFF) == 0xFFFF;
  }

  lemma {:induction false} DownFFFFFFFF()
    ensures ReadDown(0xFFFF_FFFF, 32, 0) == 0xFFFF_FFFF
  {
    assert ReadDown(0xFF00_0000, 8, 0xFFFFFF) == 0xFFFF_FFFF;
    assert ReadDown(0xFFFF_0000, 16, 0xFFFF) == 0xFFFF_FFFF;
    assert ReadDown(0xFFFF_FF00, 24, 0xFF) == 0xFFFF_FFFF;
  }

  lemma {:induction false} Down0()
    ensures ReadDown(0x0000_0000, 16, 0) == 0x0000
  {
    assert ReadDown(0x0000_0000, 8, 0x0) == 0x0000;
  }

  lemma {:induction false} Down29B1()
    ensures ReadDown(0x29B1_0000, 16, 0) == 0x29B1
  {
    assert ReadDown(0xB100_0000, 8, 0x29) == 0x29B1;
  }

  lemma {:induction false} Down31C3()
    ensures ReadDown(0x31C3_0000, 16, 0) == 0x31C3
  {
    assert ReadDown(0xC300_0000, 8, 0x31) == 0x31C3;
  }

  lemma {:induction false} UpBB3D()
    ensures ReadUp(0xBCDD_0000, 16, 0, 1) == 0xBB3D
  {
    assert ReadUp(0xDD00_0000, 8, 0x003D, 0x0100) == 0xBB3D;
  }

  lemma {:induction false} Up2189()
    ensures ReadUp(0x9184_0000, 16, 0, 1) == 0x2189
  {
    assert ReadUp(0x8400_0000, 8, 0x0089, 0x0100) == 0x2189;
  }

  lemma {:induction false} Up0C73()
    ensures ReadUp(0xCE30_0000, 16, 0, 1) == 0x0C73
  {
    assert ReadUp(0x3000_0000, 8, 0x0073, 0x0100) == 0x0C73;
  }

  lemma {:induction false} UpCBF43926()
    ensures ReadUp(0x649C_2FD3, 32, 0, 1) == 0xCBF4_3926
  {
    assert ReadUp(0xD300_0000, 8, 0x00F4_3926, 0x0100_0000) == 0xCBF4_3926;
    assert ReadUp(0x2FD3_0000, 16, 0x3926, 0x0001_0000) == 0xCBF4_3926;
    assert ReadUp(0x9C2F_D300, 24, 0x0026, 0x0100) == 0xCBF4_3926;
  }

  lemma {:induction false} UpFFFFFFFF()
    ensures ReadUp(0xFFFF_FFFF, 32, 0, 1) == 0xFFFF_FFFF
  {
    assert ReadUp(0xFF00_0000, 8, 0x00FF_FFFF, 0x0100_0000) == 0xFFFF_FFFF;
    assert ReadUp(0xFFFF_0000, 16, 0xFFFF, 0x0001_0000) == 0xFFFF_FFFF;
    assert ReadUp(0xFFFF_FF00, 24, 0x00FF, 0x0100) == 0xFFFF_FFFF;
  }

  lemma {:induction false} Up0()
    ensures ReadUp(0x0000_0000, 16, 0, 1) == 0x0000
  {
    assert ReadUp(0x0000_0000, 8, 0x0000, 0x0100) == 0x0000;
  }

  lemma {:induction false} ReadsParameters(f: Standard)
    ensures ReadDown(TopPoly(f), Order(f), 0) == TruncPoly(f)
    ensures ReadDown(TopStart(f), Order(f), 0) == InitRem(f)
  {
    hide ReadDown;
    Down8005();
    Down1021();
    Down8408();
    Down04C11DB7();
    DownFFFF();
    DownFFFFFFFF();
    Down0();
  }

  /** How the formula reads a register out. */
  function ReadOut(f: Standard, v: bv32): nat {
    if Reflected(f) then ReadUp(v, Order(f), 0, 1) else ReadDown(v, Order(f), 0)
  }

  lemma {:induction false} MaskedEnds(f: Standard)
    ensures Add(TopEnd(f), TopMask(f)) == match f
      case Crc16 => 0xBCDD_0000
      case CcittFalse => 0x29B1_0000
      case CcittTrue => 0x9184_0000
      case XmodemType => 0xCE30_0000
      case Xmodem => 0x31C3_0000
      case Crc32 => 0x649C_2FD3
  {
  }

  lemma {:induction false} ReadsResults(f: Standard)
    ensures ReadOut(f, TopMask(f)) == FinalXor(f)
    ensures ReadOut(f, Add(TopEnd(f), TopMask(f))) == CheckValue(f)
  {
    hide ReadDown, ReadUp, Add;
    MaskedEnds(f);
    UpBB3D();
    Up2189();
    Up0C73();
    UpCBF43926();
    UpFFFFFFFF();
    Up0();
    Down0();
    Down29B1();
    Down31C3();
  }

  function Laid(f: Standard, v: bv32): (w: Word)
    ensures |w| == Order(f)
  {
    if Reflected(f) then Reversed(Register(Order(f), v)) else Register(Order(f), v)
  }

  lemma {:induction false} LaidReads(f: Standard, v: bv32)
    ensures ReadOut(f, v) < Pow2(Order(f)) && FromNat(ReadOut(f, v), Order(f)) == Laid(f, v)
  {
    hide ReadDown, ReadUp, FromNat, Reversed, Register;
    NumberNothing();
    if Reflected(f) {
      ReversedReads(v, Order(f), 0, 0);
    } else {
      RegisterReads(v, Order(f), 0, 0);
    }
  }

  lemma {:induction false} NumberNothing()
    ensures Pow2(0) == 1 && FromNat(0, 0) == []
  {
  }

  lemma {:induction false} RegisterAdd(n: nat, a: bv32, b: bv32)
    ensures Xor(Register(n, a), Register(n, b)) == Register(n, Add(a, b))
  {
    hide Below, Add;
    forall i: nat ensures Below(Add(a, b), i) == (Below(a, i) != Below(b, i)) {
      BelowAdd(a, b, i);
    }
  }

  lemma {:induction false} LaidAdd(f: Standard, a: bv32, b: bv32)
    ensures Xor(Laid(f, a), Laid(f, b)) == Laid(f, Add(a, b))
  {
    hide Add, Register, Reversed, Xor;
    RegisterAdd(Order(f), a, b);
    ReversedXor(Register(Order(f), a), Register(Order(f), b));
  }

  // ----- Registers are clean below

  lemma {:induction false} CleanShift(n: nat, v: bv32)
    requires n > 0 && Clean(n - 1, Shift(v))
    ensures Clean(n, v)
  {
    hide Shift;
    forall i: nat | i >= n ensures !Below(v, i) {
      assert !Below(Shift(v), i - 1);
    }
  }

  function ShiftBy(v: bv32, k: nat): bv32
    decreases k
  {
    if k == 0 then v else ShiftBy(Shift(v), k - 1)
  }

  lemma {:induction false} CleanBelow(n: nat, v: bv32)
    requires ShiftBy(v, n) == 0
    ensures Clean(n, v)
    decreases n
  {
    if n == 0 {
      forall i: nat ensures !Below(0, i) {
        ZeroBelow(i);
      }
    } else {
      hide Clean, Shift;
      CleanBelow(n - 1, Shift(v));
      CleanShift(n, v);
    }
  }

  lemma {:induction false} ZeroBelow(i: nat)
    ensures !Below(0, i)
    decreases i
  {
    if i > 0 {
      ZeroBelow(i - 1);
    }
  }

  lemma {:induction false} ShiftsOut()
    ensures ShiftBy(0x8005_0000, 16) == ShiftBy(0x1021_0000, 16) == ShiftBy(0x8408_0000, 16) == 0
    ensures ShiftBy(0xFFFF_0000, 16) == ShiftBy(0x0000_0000, 16) == 0
  {
    assert ShiftBy(0x0500_0000, 8) == ShiftBy(0x2100_0000, 8) == ShiftBy(0x0800_0000, 8) == 0;
    assert ShiftBy(0xFF00_0000, 8) == ShiftBy(0x0000_0000, 8) == 0;
  }

  lemma {:induction false} ShiftsOutWide()
    ensures ShiftBy(0x04C1_1DB7, 32) == ShiftBy(0xFFFF_FFFF, 32) == 0
  {
    assert ShiftBy(0xB700_0000, 8) == ShiftBy(0xFF00_0000, 8) == 0;
    assert ShiftBy(0x1DB7_0000, 16) == ShiftBy(0xFFFF_0000, 16) == 0;
    assert ShiftBy(0xC11D_B700, 24) == ShiftBy(0xFFFF_FF00, 24) == 0;
  }

  lemma {:induction false} ParametersClean(f: Standard)
    ensures Clean(Order(f), TopPoly(f)) && Clean(Order(f), TopStart(f))
  {
    hide Clean, ShiftBy;
    ShiftsOut();
    ShiftsOutWide();
    CleanBelow(Order(f), TopPoly(f));
    CleanBelow(Order(f), TopStart(f));
  }

  // ----- The result

  lemma {:induction false} ParametersLaid(f: Standard, width: nat)
    requires width >= Order(f)
    ensures Params(f, width).Poly() == Register(Order(f), TopPoly(f))
    ensures Resize(Params(f, width).initRem, Order(f)) == Register(Order(f), TopStart(f))
    ensures Resize(Params(f, width).finalXor, Order(f)) == Laid(f, TopMask(f))
  {
    hide FromNat, Pow2, Register, Laid, Resize, ReadDown, ReadOut, TopPoly, TopStart, TopMask;
    hide TruncPoly, InitRem, FinalXor;
    var n := Order(f);
    ConstantsFit(f);
    Pow2Monotone(n, width);
    FromNatLow(TruncPoly(f), n, width);
    FromNatLow(InitRem(f), n, width);
    FromNatLow(FinalXor(f), n, width);
    NumberNothing();
    ReadsParameters(f);
    RegisterReads(TopPoly(f), n, 0, 0);
    RegisterReads(TopStart(f), n, 0, 0);
    ReadsResults(f);
    LaidReads(f, TopMask(f));
  }

  /** "123456789" has its published check value, by either computation. */
  lemma {:induction false} CheckValues(f: Standard, width: nat)
    requires width >= Order(f)
    ensures CheckValue(f) < Pow2(Order(f))
    ensures var prm := Params(f, width);
      Checksum(prm, prm.initRem, Digits(9)) == OptimalChecksum(prm, prm.initRem, Digits(9))
      == Resize(FromNat(CheckValue(f), Order(f)), width)
  {
    hide FromNat, Register, Resize, ReadOut, TopPoly, TopStart, TopMask, TopEnd, Clean, RunBv, Feed, Add;
    hide OptimalChecksum, MessageBits, Digits, Reversed, Xor, CrcParams.Poly;
    var n, prm := Order(f), Params(f, width);
    StandardsAgree(f, width, Digits(9));
    ParametersLaid(f, width);
    ParametersClean(f);
    RunDigits(n, TopPoly(f), TopStart(f), Reflected(f), 9);
    Runs(f);
    assert Interim(prm, prm.initRem, Digits(9)) == Register(n, TopEnd(f));
    LaidAdd(f, TopEnd(f), TopMask(f));
    ReadsResults(f);
    LaidReads(f, Add(TopEnd(f), TopMask(f)));
  }
}
