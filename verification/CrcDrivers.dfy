/** The look-up table and the byte-fed drivers of crc.hpp. Each driver is first written as a
    function on whole register words, stray bits included, and the loop is proved to compute
    it; then the functions are proved against the division of CrcDivision. */
module CrcDrivers {
  import opened BitWords
  import opened CrcDivision
  import opened CrcDetail

  // ----- The table

  /** The combined effect on the register of `SubOrder` leaving bits. */
  function PartialProduct(width: nat, n: nat, divisor: Word, reflect: bool, w: Word): (p: Word)
    requires n > 0
    ensures |p| == width
  {
    var poly := Resize(divisor, n);
    Resize(if reflect then Reversed(Feed(poly, Zeros(n), w)) else Feed(poly, Zeros(n), Reversed(w)), width)
  }

  ghost predicate IsTable(table: array<Word>, subOrder: nat, width: nat, n: nat, divisor: Word, reflect: bool)
    requires n > 0
    reads table
  {
    && table.Length == Pow2(subOrder)
    && forall w: Word :: |w| == subOrder ==>
         ToNat(w) < table.Length && table[ToNat(w)] == PartialProduct(width, n, divisor, reflect, w)
  }

  /** The index under which the product of a dividend is stored. */
  function Slot(dividend: nat, subOrder: nat, reflect: bool): (slot: Word)
    requires dividend < Pow2(subOrder)
    ensures |slot| == subOrder
  {
    var d := FromNat(dividend, subOrder);
    if reflect then Reflect(d, subOrder) else d
  }

  /** Each slot belongs to one dividend. */
  lemma SlotUnique(dividend: nat, other: nat, subOrder: nat, reflect: bool)
    requires dividend < Pow2(subOrder) && other < Pow2(subOrder)
    requires ToNat(Slot(dividend, subOrder, reflect)) == ToNat(Slot(other, subOrder, reflect))
    ensures dividend == other
  {
    var d, e := FromNat(dividend, subOrder), FromNat(other, subOrder);
    FromToNat(Slot(dividend, subOrder, reflect));
    FromToNat(Slot(other, subOrder, reflect));
    if reflect {
      ReflectAll(d);
      ReflectAll(e);
      ReversedInjective(d, e);
    }
  }

  /** Every word is the slot of some dividend. */
  lemma SlotExists(w: Word, reflect: bool) returns (dividend: nat)
    ensures dividend < Pow2(|w|) && Slot(dividend, |w|, reflect) == w
  {
    var d := if reflect then Reversed(w) else w;
    dividend := ToNat(d);
    FromToNat(d);
    ReflectAll(d);
    ReversedTwice(w);
  }

  lemma SlotProduct(dividend: nat, subOrder: nat, width: nat, n: nat, divisor: Word, reflect: bool)
    requires 0 < subOrder <= n <= width == |divisor| && dividend < Pow2(subOrder)
    ensures var d := FromNat(dividend, subOrder);
            var r := Resize(Feed(Resize(divisor, n), Resize(Zeros(width), n), Incoming(d, subOrder, false)), width);
            PartialProduct(width, n, divisor, reflect, Slot(dividend, subOrder, reflect))
            == if reflect then Reflect(r, n) else r
  {
    var d := FromNat(dividend, subOrder);
    var f := Feed(Resize(divisor, n), Zeros(n), Reversed(d));
    assert Incoming(d, subOrder, false) == Reversed(d);
    assert Resize(Zeros(width), n) == Zeros(n);
    if reflect {
      ReflectAll(d);
      ReflectResized(f, width);
    }
  }

  lemma ReflectResized(f: Word, width: nat)
    requires |f| <= width
    ensures Reflect(Resize(f, width), |f|) == Resize(Reversed(f), width)
  {
  }

  method MakePartialXorProductsTable(subOrder: nat, width: nat, registerLength: nat,
                                     truncatedDivisor: Word, reflect: bool)
    returns (result: array<Word>)
    requires 0 < subOrder <= registerLength <= width == |truncatedDivisor|
    ensures fresh(result)
    ensures IsTable(result, subOrder, width, registerLength, truncatedDivisor, reflect)
  {
    hide Slot, PartialProduct, Reflect, Resize, Feed, Zeros, Incoming, ToNat, Pow2;
    result := new Word[Pow2(subOrder)](i => Zeros(width));
    var dividend := 0;
    while dividend < result.Length
      invariant 0 <= dividend <= result.Length == Pow2(subOrder)
      invariant forall d :: 0 <= d < dividend ==>
                  ToNat(Slot(d, subOrder, reflect)) < Pow2(subOrder) &&
                  result[ToNat(Slot(d, subOrder, reflect))]
                  == PartialProduct(width, registerLength, truncatedDivisor, reflect, Slot(d, subOrder, reflect))
    {
      var bits := FromNat(dividend, subOrder);
      var remainder := CrcModuloWordUpdate(registerLength, Zeros(width), bits, truncatedDivisor, subOrder, false);
      remainder := ReflectOptionally(remainder, reflect, registerLength);
      var index := ReflectOptionally(bits, reflect, subOrder);
      SlotProduct(dividend, subOrder, width, registerLength, truncatedDivisor, reflect);
      assert index == Slot(dividend, subOrder, reflect) by {
        SlotMeaning(dividend, subOrder, reflect);
      }
      forall d | 0 <= d < dividend ensures ToNat(Slot(d, subOrder, reflect)) != ToNat(index) {
        if ToNat(Slot(d, subOrder, reflect)) == ToNat(index) {
          SlotUnique(d, dividend, subOrder, reflect);
        }
      }
      result[ToNat(index)] := remainder;
      dividend := dividend + 1;
    }
    forall w: Word | |w| == subOrder
      ensures ToNat(w) < result.Length
      ensures result[ToNat(w)] == PartialProduct(width, registerLength, truncatedDivisor, reflect, w)
    {
      var d := SlotExists(w, reflect);
    }
  }

  lemma SlotMeaning(dividend: nat, subOrder: nat, reflect: bool)
    requires dividend < Pow2(subOrder)
    ensures var d := FromNat(dividend, subOrder);
            Slot(dividend, subOrder, reflect) == if reflect then Reflect(d, subOrder) else d
  {
  }

  /** The table is linear: the entry of an exclusive-or is the exclusive-or of the entries. */
  lemma {:induction false} TableIsLinear(width: nat, n: nat, divisor: Word, reflect: bool, v: Word, w: Word)
    requires n > 0 && |v| == |w|
    ensures PartialProduct(width, n, divisor, reflect, Xor(v, w))
         == Xor(PartialProduct(width, n, divisor, reflect, v), PartialProduct(width, n, divisor, reflect, w))
  {
    hide Feed, Reversed, Xor, Resize, Zeros;
    var poly, z := Resize(divisor, n), Zeros(n);
    XorZeros(z);
    if reflect {
      FeedLinear(poly, z, z, v, w);
      ReversedXor(Feed(poly, z, v), Feed(poly, z, w));
      ResizeXor(Reversed(Feed(poly, z, v)), Reversed(Feed(poly, z, w)), width);
    } else {
      ReversedXor(v, w);
      FeedLinear(poly, z, z, Reversed(v), Reversed(w));
      ResizeXor(Feed(poly, z, Reversed(v)), Feed(poly, z, Reversed(w)), width);
    }
  }

  lemma ResizeXor(a: Word, b: Word, width: nat)
    requires |a| == |b|
    ensures Resize(Xor(a, b), width) == Xor(Resize(a, width), Resize(b, width))
  {
  }

  // ----- The drivers, one byte at a time

  /** The compile-time parameters of a CRC formula. `width` is the number of digits of
      value_type; the types narrow enough for a sub-byte register have exactly 8. */
  datatype CrcParams = CrcParams(width: nat, bits: nat, truncPoly: Word, initRem: Word, finalXor: Word,
                                 reflectIn: bool, reflectRem: bool)
  {
    predicate Valid() {
      && 0 < bits <= width && CHAR_BIT <= width
      && |truncPoly| == |initRem| == |finalXor| == width
      && (bits <= CHAR_BIT ==> width == CHAR_BIT)
    }

    /** The n coefficients of the divisor that matter. */
    function Poly(): (p: Word)
      ensures |p| == bits
    {
      Resize(truncPoly, bits)
    }

    function TableFor(w: Word): Word
      requires Valid()
    {
      PartialProduct(width, bits, truncPoly, reflectIn, w)
    }

    /** One byte through the driver that crc_driver selects. */
    function DriverStep(rem: Word, b: Byte): (rem': Word)
      requires Valid() && |rem| == width
      ensures |rem'| == width
    {
      if bits < CHAR_BIT then
        Resize(Feed(Poly(), Resize(rem, bits), ByteBits(reflectIn, b)), width)
      else if reflectIn then
        Xor(Shr(rem, CHAR_BIT), TableFor(Xor(Resize(rem, CHAR_BIT), b)))
      else
        Xor(Shl(rem, CHAR_BIT), TableFor(Xor(Field(rem, bits - CHAR_BIT, CHAR_BIT), b)))
    }

    function DriverRun(rem: Word, bytes: seq<Byte>): (rem': Word)
      requires Valid() && |rem| == width
      ensures |rem'| == width
      decreases |bytes|
    {
      if |bytes| == 0 then rem
      else DriverStep(DriverRun(rem, bytes[..|bytes| - 1]), bytes[|bytes| - 1])
    }

    /** Straight-up division of one byte, as direct_byte_table_driven_crcs does it. */
    function AugmentedStep(rem: Word, b: Byte): (rem': Word)
      requires Valid() && |rem| == width && bits >= CHAR_BIT
      ensures |rem'| == width
    {
      Xor(Or(Shl(rem, CHAR_BIT), Resize(b, width)),
          PartialProduct(width, bits, truncPoly, false, Field(rem, bits - CHAR_BIT, CHAR_BIT)))
    }

    /** The same from the other end, as reflected_byte_table_driven_crcs does it. */
    function ReflectedAugmentedStep(rem: Word, b: Byte): (rem': Word)
      requires Valid() && |rem| == width && bits >= CHAR_BIT
      ensures |rem'| == width
    {
      Xor(Or(Shr(rem, CHAR_BIT), Shl(Resize(b, width), bits - CHAR_BIT)),
          PartialProduct(width, bits, truncPoly, true, Resize(rem, CHAR_BIT)))
    }

    function ReflectedAugmentedRun(rem: Word, bytes: seq<Byte>): (rem': Word)
      requires Valid() && |rem| == width && bits >= CHAR_BIT
      ensures |rem'| == width
      decreases |bytes|
    {
      if |bytes| == 0 then rem
      else ReflectedAugmentedStep(ReflectedAugmentedRun(rem, bytes[..|bytes| - 1]), bytes[|bytes| - 1])
    }
  }

  // ----- What one byte does to the division

  lemma ResizeXorShl(rem: Word, n: nat, f: Word)
    requires |f| == n <= |rem|
    ensures Resize(Xor(Shl(rem, 8), Resize(f, |rem|)), n) == Xor(Shl(Resize(rem, n), 8), f)
  {
  }

  lemma LeavingIsField(rem: Word, n: nat)
    requires 8 <= n <= |rem|
    ensures Leaving(Resize(rem, n), 8) == Reversed(Field(rem, n - 8, 8))
  {
  }

  /** The direct look-up: stray high bits are shifted further out and never read. */
  lemma DirectStepDivides(prm: CrcParams, rem: Word, b: Byte)
    requires prm.Valid() && |rem| == prm.width && prm.bits >= CHAR_BIT && !prm.reflectIn
    ensures Resize(prm.DriverStep(rem, b), prm.bits)
         == Feed(prm.Poly(), Resize(rem, prm.bits), ByteBits(false, b))
  {
    hide Feed, Xor, Shl, Resize, Leaving, Reversed, Field, Zeros;
    var n, poly, r := prm.bits, prm.Poly(), Resize(rem, prm.bits);
    var index := Xor(Field(rem, n - 8, 8), b);
    FeedByLookup(poly, r, Reversed(b));
    LeavingIsField(rem, n);
    ReversedXor(Field(rem, n - 8, 8), b);
    ResizeXorShl(rem, n, Feed(poly, Zeros(n), Reversed(index)));
  }

  lemma MirrorXorShr(r: Word, f: Word, width: nat)
    requires 8 <= |r| == |f| <= width
    ensures Resize(Reversed(Xor(Shl(r, 8), f)), width)
         == Xor(Shr(Resize(Reversed(r), width), 8), Resize(Reversed(f), width))
    ensures Leaving(r, 8) == Resize(Resize(Reversed(r), width), 8)
  {
  }

  /** The reflected look-up is the mirror image of the direct one. */
  lemma {:induction false} ReflectedStepMirrors(prm: CrcParams, r: Word, b: Byte)
    requires prm.Valid() && |r| == prm.bits >= CHAR_BIT && prm.reflectIn
    ensures prm.DriverStep(Resize(Reversed(r), prm.width), b)
         == Resize(Reversed(Feed(prm.Poly(), r, ByteBits(true, b))), prm.width)
  {
    hide Feed, Xor, Shl, Shr, Resize, Leaving, Reversed, Zeros;
    var n, poly := prm.bits, prm.Poly();
    var index := Xor(Leaving(r, 8), b);
    FeedByLookup(poly, r, b);
    MirrorXorShr(r, Feed(poly, Zeros(n), index), prm.width);
  }

  lemma ResizeAugmented(rem: Word, n: nat, f: Word, b: Byte)
    requires 8 <= |f| == n <= |rem|
    ensures Resize(Xor(Or(Shl(rem, 8), Resize(b, |rem|)), Resize(f, |rem|)), n)
         == Xor(Xor(Shl(Resize(rem, n), 8), f), Resize(b, n))
  {
  }

  lemma AugmentedStepDivides(prm: CrcParams, rem: Word, b: Byte)
    requires prm.Valid() && |rem| == prm.width && prm.bits >= CHAR_BIT
    ensures Resize(prm.AugmentedStep(rem, b), prm.bits)
         == AugFeed(prm.Poly(), Resize(rem, prm.bits), ByteBits(false, b))
  {
    hide Feed, AugFeed, Xor, Or, Shl, Resize, Leaving, Reversed, Field, Zeros;
    var n, poly, r := prm.bits, prm.Poly(), Resize(rem, prm.bits);
    var index := Field(rem, n - 8, 8);
    AugFeedSplit(poly, r, Reversed(b));
    ReversedTwice(b);
    FeedByLookup(poly, r, Zeros(8));
    LeavingIsField(rem, n);
    XorZeros(Leaving(r, 8));
    ResizeAugmented(rem, n, Feed(poly, Zeros(n), Reversed(index)), b);
  }

  lemma MirrorAugmented(r: Word, f: Word, b: Byte, width: nat)
    requires 8 <= |r| == |f| <= width
    ensures Resize(Reversed(Xor(Xor(Shl(r, 8), f), Resize(Reversed(b), |r|))), width)
         == Xor(Or(Shr(Resize(Reversed(r), width), 8), Shl(Resize(b, width), |r| - 8)), Resize(Reversed(f), width))
    ensures Leaving(r, 8) == Resize(Resize(Reversed(r), width), 8)
  {
  }

  lemma {:induction false} ReflectedAugmentedStepMirrors(prm: CrcParams, r: Word, b: Byte)
    requires prm.Valid() && |r| == prm.bits >= CHAR_BIT
    ensures prm.ReflectedAugmentedStep(Resize(Reversed(r), prm.width), b)
         == Resize(Reversed(AugFeed(prm.Poly(), r, ByteBits(true, b))), prm.width)
  {
    hide Feed, AugFeed, Xor, Or, Shl, Shr, Resize, Leaving, Reversed, Zeros;
    var n, poly := prm.bits, prm.Poly();
    AugFeedSplit(poly, r, b);
    FeedByLookup(poly, r, Zeros(8));
    XorZeros(Leaving(r, 8));
    MirrorAugmented(r, Feed(poly, Zeros(n), Leaving(r, 8)), b, prm.width);
  }

  // ----- The loops

  lemma LookUp(table: array<Word>, subOrder: nat, width: nat, n: nat, divisor: Word,
                                  reflect: bool, w: Word)
    requires n > 0 && |w| == subOrder
    requires IsTable(table, subOrder, width, n, divisor, reflect)
    ensures ToNat(w) < table.Length && table[ToNat(w)] == PartialProduct(width, n, divisor, reflect, w)
  {
  }

  lemma {:induction false} DriverRunPrefix(prm: CrcParams, rem: Word, bytes: seq<Byte>, k: nat)
    requires prm.Valid() && |rem| == prm.width && k < |bytes|
    ensures prm.DriverRun(rem, bytes[..k + 1]) == prm.DriverStep(prm.DriverRun(rem, bytes[..k]), bytes[k])
  {
    assert bytes[..k + 1][..k] == bytes[..k];
  }

  /** `byteCount` plays new_dividend_byte_count: it is counted down to zero. */
  method DirectByteCrcUpdate(prm: CrcParams, table: array<Word>, remainder: Word, bytes: seq<Byte>)
    returns (rem: Word)
    requires prm.Valid() && |remainder| == prm.width && prm.bits >= CHAR_BIT && !prm.reflectIn
    requires IsTable(table, CHAR_BIT, prm.width, prm.bits, prm.truncPoly, false)
    ensures rem == prm.DriverRun(remainder, bytes)
  {
    hide Field, Xor, Shl, PartialProduct, IsTable, ToNat;
    rem := remainder;
    var byteCount := |bytes|;
    while byteCount > 0
      invariant 0 <= byteCount <= |bytes|
      invariant rem == prm.DriverRun(remainder, bytes[..|bytes| - byteCount])
    {
      DriverRunPrefix(prm, remainder, bytes, |bytes| - byteCount);
      var index := Xor(Field(rem, prm.bits - CHAR_BIT, CHAR_BIT), bytes[|bytes| - byteCount]);
      LookUp(table, CHAR_BIT, prm.width, prm.bits, prm.truncPoly, false, index);
      rem := Shl(rem, CHAR_BIT);
      rem := Xor(rem, table[ToNat(index)]);
      byteCount := byteCount - 1;
    }
    assert bytes[..|bytes|] == bytes;
  }

  method ReflectedByteCrcUpdate(prm: CrcParams, table: array<Word>, remainder: Word, bytes: seq<Byte>)
    returns (rem: Word)
    requires prm.Valid() && |remainder| == prm.width && prm.bits >= CHAR_BIT && prm.reflectIn
    requires IsTable(table, CHAR_BIT, prm.width, prm.bits, prm.truncPoly, true)
    ensures rem == prm.DriverRun(remainder, bytes)
  {
    hide Resize, Xor, Shr, PartialProduct, IsTable, ToNat;
    rem := remainder;
    var byteCount := |bytes|;
    while byteCount > 0
      invariant 0 <= byteCount <= |bytes|
      invariant rem == prm.DriverRun(remainder, bytes[..|bytes| - byteCount])
    {
      DriverRunPrefix(prm, remainder, bytes, |bytes| - byteCount);
      var index := Xor(Resize(rem, CHAR_BIT), bytes[|bytes| - byteCount]);
      LookUp(table, CHAR_BIT, prm.width, prm.bits, prm.truncPoly, true, index);
      rem := Shr(rem, CHAR_BIT);
      rem := Xor(rem, table[ToNat(index)]);
      byteCount := byteCount - 1;
    }
    assert bytes[..|bytes|] == bytes;
  }

  lemma ByteIsIncoming(b: Byte, lowFirst: bool)
    ensures Incoming(b, CHAR_BIT, lowFirst) == ByteBits(lowFirst, b)
  {
  }

  /** The loop shared by direct_sub_byte_crcs and reflected_sub_byte_crcs. */
  method SubByteCrcUpdate(prm: CrcParams, remainder: Word, bytes: seq<Byte>) returns (rem: Word)
    requires prm.Valid() && |remainder| == prm.width && prm.bits < CHAR_BIT
    ensures rem == prm.DriverRun(remainder, bytes)
  {
    hide Resize, Feed, Incoming, ByteBits;
    rem := remainder;
    var byteCount := |bytes|;
    while byteCount > 0
      invariant 0 <= byteCount <= |bytes|
      invariant rem == prm.DriverRun(remainder, bytes[..|bytes| - byteCount])
    {
      DriverRunPrefix(prm, remainder, bytes, |bytes| - byteCount);
      var b := bytes[|bytes| - byteCount];
      ByteIsIncoming(b, prm.reflectIn);
      rem := CrcModuloWordUpdate(prm.bits, rem, b, prm.truncPoly, CHAR_BIT, prm.reflectIn);
      byteCount := byteCount - 1;
    }
    assert bytes[..|bytes|] == bytes;
  }

  method AugmentedByteCrcUpdate(prm: CrcParams, table: array<Word>, remainder: Word, bytes: seq<Byte>)
    returns (rem: Word)
    requires prm.Valid() && |remainder| == prm.width && prm.bits >= CHAR_BIT
    requires IsTable(table, CHAR_BIT, prm.width, prm.bits, prm.truncPoly, false)
    ensures |rem| == prm.width
    ensures Resize(rem, prm.bits) == AugFeed(prm.Poly(), Resize(remainder, prm.bits), MessageBits(false, bytes))
  {
    hide Field, Xor, Shl, Or, Resize, PartialProduct, AugFeed, ByteBits, IsTable, ToNat;
    rem := remainder;
    var byteCount := |bytes|;
    AugFeedPrefix(prm.Poly(), Resize(remainder, prm.bits), [], 0);
    while byteCount > 0
      invariant 0 <= byteCount <= |bytes|
      invariant |rem| == prm.width
      invariant Resize(rem, prm.bits)
             == AugFeed(prm.Poly(), Resize(remainder, prm.bits), MessageBits(false, bytes[..|bytes| - byteCount]))
    {
      ghost var k := |bytes| - byteCount;
      var b := bytes[|bytes| - byteCount];
      AugmentedStepDivides(prm, rem, b);
      assert bytes[..k + 1][..k] == bytes[..k];
      AugFeedConcat(prm.Poly(), Resize(remainder, prm.bits), MessageBits(false, bytes[..k]), ByteBits(false, b));
      var index := Field(rem, prm.bits - CHAR_BIT, CHAR_BIT);
      LookUp(table, CHAR_BIT, prm.width, prm.bits, prm.truncPoly, false, index);
      rem := Shl(rem, CHAR_BIT);
      rem := Or(rem, Resize(b, prm.width));
      rem := Xor(rem, table[ToNat(index)]);
      byteCount := byteCount - 1;
    }
    assert bytes[..|bytes|] == bytes;
  }

  lemma {:induction false} ReflectedAugmentedRunPrefix(prm: CrcParams, rem: Word, bytes: seq<Byte>, k: nat)
    requires prm.Valid() && |rem| == prm.width && prm.bits >= CHAR_BIT && k < |bytes|
    ensures prm.ReflectedAugmentedRun(rem, bytes[..k + 1])
         == prm.ReflectedAugmentedStep(prm.ReflectedAugmentedRun(rem, bytes[..k]), bytes[k])
  {
    assert bytes[..k + 1][..k] == bytes[..k];
  }

  method ReflectedAugmentedByteCrcUpdate(prm: CrcParams, table: array<Word>, remainder: Word, bytes: seq<Byte>)
    returns (rem: Word)
    requires prm.Valid() && |remainder| == prm.width && prm.bits >= CHAR_BIT
    requires IsTable(table, CHAR_BIT, prm.width, prm.bits, prm.truncPoly, true)
    ensures rem == prm.ReflectedAugmentedRun(remainder, bytes)
  {
    hide Xor, Shl, Shr, Or, Resize, PartialProduct, IsTable, ToNat;
    rem := remainder;
    var byteCount := |bytes|;
    while byteCount > 0
      invariant 0 <= byteCount <= |bytes|
      invariant rem == prm.ReflectedAugmentedRun(remainder, bytes[..|bytes| - byteCount])
    {
      ReflectedAugmentedRunPrefix(prm, remainder, bytes, |bytes| - byteCount);
      var b := bytes[|bytes| - byteCount];
      var index := Resize(rem, CHAR_BIT);
      LookUp(table, CHAR_BIT, prm.width, prm.bits, prm.truncPoly, true, index);
      rem := Shr(rem, CHAR_BIT);
      rem := Or(rem, Shl(Resize(b, prm.width), prm.bits - CHAR_BIT));
      rem := Xor(rem, table[ToNat(index)]);
      byteCount := byteCount - 1;
    }
    assert bytes[..|bytes|] == bytes;
  }

  /** From a register with no stray bits, it stays the mirror image of the one the direct loop
      would hold. */
  lemma {:induction false} ReflectedAugmentedRunMirrors(prm: CrcParams, r: Word, bytes: seq<Byte>)
    requires prm.Valid() && |r| == prm.bits >= CHAR_BIT
    ensures prm.ReflectedAugmentedRun(Resize(Reversed(r), prm.width), bytes)
         == Resize(Reversed(AugFeed(prm.Poly(), r, MessageBits(true, bytes))), prm.width)
    decreases |bytes|
  {
    hide Resize, Reversed, ByteBits, CrcParams.ReflectedAugmentedStep;
    if |bytes| > 0 {
      var k := |bytes| - 1;
      ReflectedAugmentedRunMirrors(prm, r, bytes[..k]);
      ReflectedAugmentedStepMirrors(prm, AugFeed(prm.Poly(), r, MessageBits(true, bytes[..k])), bytes[k]);
      AugFeedConcat(prm.Poly(), r, MessageBits(true, bytes[..k]), ByteBits(true, bytes[k]));
    }
  }

  /** The loop shared by the augmented forms of the two sub-byte classes. */
  method AugmentedSubByteCrcUpdate(prm: CrcParams, remainder: Word, bytes: seq<Byte>) returns (rem: Word)
    requires prm.Valid() && |remainder| == prm.width && prm.bits < CHAR_BIT
    ensures |rem| == prm.width
    ensures Resize(rem, prm.bits)
         == AugFeed(prm.Poly(), Resize(remainder, prm.bits), MessageBits(prm.reflectIn, bytes))
  {
    hide Resize, AugFeed, Incoming, ByteBits;
    rem := remainder;
    ghost var r := Resize(remainder, prm.bits);
    AugFeedPrefix(prm.Poly(), r, [], 0);
    var byteCount := |bytes|;
    while byteCount > 0
      invariant 0 <= byteCount <= |bytes|
      invariant |rem| == prm.width
      invariant Resize(rem, prm.bits)
             == AugFeed(prm.Poly(), r, MessageBits(prm.reflectIn, bytes[..|bytes| - byteCount]))
    {
      ghost var k := |bytes| - byteCount;
      var b := bytes[|bytes| - byteCount];
      assert bytes[..k + 1][..k] == bytes[..k];
      AugFeedConcat(prm.Poly(), r, MessageBits(prm.reflectIn, bytes[..k]), ByteBits(prm.reflectIn, b));
      ByteIsIncoming(b, prm.reflectIn);
      rem := AugmentedCrcModuloWordUpdate(prm.bits, rem, b, prm.truncPoly, CHAR_BIT, prm.reflectIn);
      byteCount := byteCount - 1;
    }
    assert bytes[..|bytes|] == bytes;
  }

  /** reflected_sub_byte_crcs turns the register round before and after; that also drops the
      bits which overflowed. */
  method ReflectedAugmentedSubByteCrcUpdate(prm: CrcParams, remainder: Word, bytes: seq<Byte>) returns (rem: Word)
    requires prm.Valid() && |remainder| == prm.width && prm.bits < CHAR_BIT && prm.reflectIn
    ensures rem == Resize(Reversed(AugFeed(prm.Poly(), Reversed(Resize(remainder, prm.bits)),
                                           MessageBits(true, bytes))), prm.width)
  {
    hide AugFeed, MessageBits, SubByteReflection, Resize, Reversed;
    rem := ReflectSubByte(remainder, prm.bits);
    SubByteReflectionTurns(remainder, prm.bits);
    rem := AugmentedSubByteCrcUpdate(prm, rem, bytes);
    SubByteReflectionTurns(rem, prm.bits);
    rem := ReflectSubByte(rem, prm.bits);
  }

  lemma SubByteReflectionTurns(x: Word, n: nat)
    requires n <= |x|
    ensures Resize(SubByteReflection(x, n), n) == Reversed(Resize(x, n))
    ensures SubByteReflection(x, n) == Resize(Reversed(Resize(x, n)), |x|)
  {
  }
}
