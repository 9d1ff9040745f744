/** The formulas crc.hpp names. */
module CrcStandards {
  import opened BitWords
  import opened CrcDrivers
  import opened CrcChecksum

  datatype Standard = Crc16 | CcittFalse | CcittTrue | XmodemType | Xmodem | Crc32

  function Order(f: Standard): nat {
    if f == Crc32 then 32 else 16
  }

  function TruncPoly(f: Standard): nat {
    match f
    case Crc16 => 0x8005
    case CcittFalse => 0x1021
    case CcittTrue => 0x1021
    case XmodemType => 0x8408
    case Xmodem => 0x1021
    case Crc32 => 0x04C1_1DB7
  }

  /** Every bit of the start value set, or none; the final mask only in CRC-32. */
  function InitRem(f: Standard): nat {
    match f
    case CcittFalse => 0xFFFF
    case Crc32 => 0xFFFF_FFFF
    case _ => 0
  }

  function FinalXor(f: Standard): nat {
    if f == Crc32 then 0xFFFF_FFFF else 0
  }

  function Reflected(f: Standard): bool {
    f != CcittFalse && f != Xmodem
  }

  lemma {:induction false} Pow2Monotone(a: nat, b: nat)
    requires a <= b
    ensures Pow2(a) <= Pow2(b)
    decreases b - a
  {
    if a < b {
      Pow2Monotone(a, b - 1);
    }
  }

  lemma SixteenAndThirtyTwo()
    ensures Pow2(16) == 0x1_0000 && Pow2(32) == 0x1_0000_0000
  {
    assert Pow2(8) == 0x100;
    assert Pow2(16) == 0x1_0000;
    assert Pow2(24) == 0x100_0000;
  }

  lemma ConstantsFit(f: Standard)
    ensures TruncPoly(f) < Pow2(Order(f)) && InitRem(f) < Pow2(Order(f)) && FinalXor(f) < Pow2(Order(f))
  {
    SixteenAndThirtyTwo();
  }

  /** value_type may be wider than the order: uint_fast16_t and uint_fast32_t often are. */
  function Params(f: Standard, width: nat): (prm: CrcParams)
    requires width >= Order(f)
    ensures prm.Valid()
  {
    ConstantsFit(f);
    Pow2Monotone(Order(f), width);
    CrcParams(width, Order(f), FromNat(TruncPoly(f), width), FromNat(InitRem(f), width),
              FromNat(FinalXor(f), width), Reflected(f), Reflected(f))
  }

  /** A number below 2^k has no bits at k or above. */
  lemma {:induction false} HighBitsClear(v: nat, k: nat, width: nat, i: nat)
    requires v < Pow2(k) && k <= i < width && v < Pow2(width)
    ensures !FromNat(v, width)[i]
    decreases width
  {
    if k == 0 {
      assert v == 0;
    }
    if i > 0 {
      assert FromNat(v, width)[i] == FromNat(v / 2, width - 1)[i - 1];
      HighBitsClear(v / 2, if k == 0 then 0 else k - 1, width - 1, i - 1);
    }
  }

  /** For each named formula the table-driven and the bit-wise checksum agree on every message. */
  lemma {:induction false} StandardsAgree(f: Standard, width: nat, message: seq<Byte>)
    requires width >= Order(f)
    ensures var prm := Params(f, width);
      OptimalChecksum(prm, prm.initRem, message) == Checksum(prm, prm.initRem, message)
  {
    var prm := Params(f, width);
    ConstantsFit(f);
    forall i | prm.bits <= i < width ensures !prm.initRem[i] {
      Pow2Monotone(Order(f), width);
      HighBitsClear(InitRem(f), Order(f), width, i);
    }
    OptimalAgrees(prm, prm.initRem, message);
  }

  /** All of them detect every burst no longer than their order, except crc_xmodem_type, whose
      divisor was reflected by mistake and has lost its constant coefficient. */
  lemma {:induction false} StandardsDetectBursts(f: Standard, width: nat)
    requires width >= Order(f)
    ensures ChecksumDetectsBursts(Params(f, width)) <==> f != XmodemType
  {
    hide ChecksumDetectsBursts;
    ChecksumDetectsBurstsExactly(Params(f, width));
    ConstantsFit(f);
    Pow2Monotone(Order(f), width);
    assert FromNat(TruncPoly(f), width)[0] == (TruncPoly(f) % 2 == 1);
  }
}
