/** The two CRC classes, crc_basic and crc_optimal, and the function templates crc and
    augmented_crc. */
module CrcComputers {
  import opened BitWords
  import opened CrcDivision
  import opened CrcRemainder
  import CrcBurst
  import opened CrcDetail
  import opened CrcDrivers
  import opened CrcChecksum

  /** Bit-wise computer: every parameter is a field. */
  class CrcBasic {
    const width: nat
    const bits: nat
    var rem: Word
    var poly: Word
    var init: Word
    var final: Word
    var rftIn: bool
    var rftOut: bool

    function Params(): CrcParams
      reads this
    {
      CrcParams(width, bits, poly, init, final, rftIn, rftOut)
    }

    ghost predicate Valid()
      reads this
    {
      Params().Valid() && |rem| == width
    }

    /** The remainder of what has been submitted so far. */
    ghost function Register(): (r: Word)
      requires Valid()
      reads this
    {
      Resize(rem, bits)
    }

    constructor (width: nat, bits: nat, truncatedPolynomial: Word, initialRemainder: Word,
                 finalXorValue: Word, reflectInput: bool, reflectRemainder: bool)
      requires CrcParams(width, bits, truncatedPolynomial, initialRemainder, finalXorValue,
                         reflectInput, reflectRemainder).Valid()
      ensures Valid()
      ensures Params() == CrcParams(width, bits, truncatedPolynomial, initialRemainder, finalXorValue,
                                    reflectInput, reflectRemainder)
      ensures Register() == Resize(initialRemainder, bits)
    {
      this.width, this.bits := width, bits;
      rem, poly := initialRemainder, truncatedPolynomial;
      init, final := initialRemainder, finalXorValue;
      rftIn, rftOut := reflectInput, reflectRemainder;
    }

    method GetInterimRemainder() returns (r: Word)
      requires Valid()
      ensures r == Resize(Register(), width)
    {
      LowBitsOfResize(rem, bits);
      r := LowBits(rem, bits);
    }

    method Reset(newRem: Word)
      requires Valid() && |newRem| == width
      modifies this`rem
      ensures Valid() && Register() == Resize(newRem, bits)
    {
      rem := newRem;
    }

    method ResetInitial()
      requires Valid()
      modifies this`rem
      ensures Valid() && Register() == Resize(Params().initRem, bits)
    {
      Reset(init);
    }

    method ProcessBit(bit: bool)
      requires Valid()
      modifies this`rem
      ensures Valid()
      ensures Register() == Step(Params().Poly(), old(Register()), bit)
    {
      hide Feed, Step, Resize, Incoming;
      OneBitFeeds(Params().Poly(), Register(), bit);
      ResizeTwice(Step(Params().Poly(), Register(), bit), width);
      rem := CrcModuloWordUpdate(bits, rem, [bit], poly, 1, false);
    }

    /** The bits above the ones wanted are shifted out first. */
    method ProcessBits(newBits: Byte, bitLength: nat)
      requires Valid() && 0 < bitLength <= CHAR_BIT
      modifies this`rem
      ensures Valid()
      ensures Register() == Feed(Params().Poly(), old(Register()), Incoming(newBits, bitLength, false))
    {
      hide Shl, Incoming, Feed, Step, CrcParams.Poly;
      ghost var order, r0 := Incoming(newBits, bitLength, false), Register();
      FeedPrefix(Params().Poly(), r0, order, 0);
      var byte: Byte := Shl(newBits, CHAR_BIT - bitLength);
      var i := bitLength;
      while i > 0
        invariant 0 <= i <= bitLength
        invariant Valid()
        invariant byte == Shl(newBits, CHAR_BIT - i)
        invariant Register() == Feed(Params().Poly(), r0, order[..bitLength - i])
        modifies this`rem
      {
        LeadingBit(newBits, i, bitLength);
        FeedPrefix(Params().Poly(), r0, order, bitLength - i);
        ProcessBit(byte[CHAR_BIT - 1]);
        i, byte := i - 1, Shl(byte, 1);
      }
    }

    method ProcessByte(byte: Byte)
      requires Valid()
      modifies this`rem
      ensures Valid()
      ensures Register() == Feed(Params().Poly(), old(Register()), ByteBits(rftIn, byte))
    {
      var b := byte;
      if rftIn {
        b := ReflectByte(byte);
      }
      ReflectedIncoming(byte);
      ByteIsIncoming(byte, false);
      ProcessBits(b, CHAR_BIT);
    }

    /** The pointers are positions in one buffer. */
    method ProcessBlock(buffer: seq<Byte>, bytesBegin: nat, bytesEnd: nat)
      requires Valid() && bytesBegin <= bytesEnd <= |buffer|
      modifies this`rem
      ensures Valid()
      ensures Register() == Feed(Params().Poly(), old(Register()), MessageBits(rftIn, buffer[bytesBegin..bytesEnd]))
    {
      hide Feed, ByteBits, CrcParams.Poly;
      ghost var r0 := Register();
      FeedPrefix(Params().Poly(), r0, [], 0);
      var p := bytesBegin;
      while p < bytesEnd
        invariant bytesBegin <= p <= bytesEnd
        invariant Valid()
        invariant Register() == Feed(Params().Poly(), r0, MessageBits(rftIn, buffer[bytesBegin..p]))
        modifies this`rem
      {
        assert buffer[bytesBegin..p + 1][..p - bytesBegin] == buffer[bytesBegin..p];
        FeedConcat(Params().Poly(), r0, MessageBits(rftIn, buffer[bytesBegin..p]), ByteBits(rftIn, buffer[p]));
        ProcessByte(buffer[p]);
        p := p + 1;
      }
    }

    method ProcessBytes(buffer: seq<Byte>)
      requires Valid()
      modifies this`rem
      ensures Valid()
      ensures Register() == Feed(Params().Poly(), old(Register()), MessageBits(rftIn, buffer))
    {
      assert buffer[0..|buffer|] == buffer;
      ProcessBlock(buffer, 0, |buffer|);
    }

    method Checksum() returns (c: Word)
      requires Valid()
      ensures c == Finish(Params(), Register())
      ensures |c| == width
      ensures forall i :: 0 <= i < bits ==> c[i] == (Register()[if rftOut then bits - 1 - i else i] != final[i])
      ensures forall i :: bits <= i < width ==> !c[i]
    {
      FinishBits(Params(), Register());
      hide Xor, Resize, Reversed, Reflect, LowBits;
      var out := rem;
      if rftOut {
        out := ReflectUnsigned(rem, bits);
        ReflectLow(rem, bits);
      }
      LowBitsOfXor(out, final, bits);
      c := LowBits(Xor(out, final), bits);
    }
  }

  lemma OneBitFeeds(poly: Word, r: Word, bit: bool)
    requires |poly| == |r| > 0
    ensures Feed(poly, r, Incoming([bit], 1, false)) == Step(poly, r, bit)
  {
    assert Incoming([bit], 1, false) == [] + [bit];
    FeedSnoc(poly, r, [], bit);
  }

  lemma LeadingBit(b: Byte, i: nat, bitLength: nat)
    requires 0 < i <= bitLength <= CHAR_BIT
    ensures Shl(b, CHAR_BIT - i)[CHAR_BIT - 1] == Incoming(b, bitLength, false)[bitLength - i]
    ensures Shl(Shl(b, CHAR_BIT - i), 1) == Shl(b, CHAR_BIT - (i - 1))
  {
  }

  lemma ReflectedIncoming(b: Byte)
    ensures Incoming(Reversed(b), CHAR_BIT, false) == b
  {
  }

  lemma ReflectLow(x: Word, n: nat)
    requires n <= |x|
    ensures Resize(Reflect(x, n), n) == Reversed(Resize(x, n))
  {
  }

  /** A new start value is shown as it was given, stray bits dropped. */
  lemma ResetShows(prm: CrcParams, start: Word)
    requires prm.Valid() && |start| == prm.width
    ensures Shown(prm, ReflectQ(prm, prm.reflectIn, start)) == Resize(start, prm.bits)
  {
    hide ReflectQ, Resize, Reversed;
    ReflectQShows(prm, prm.reflectIn, start);
    ReversedTwice(Resize(start, prm.bits));
  }

  /** Table-driven computer: the parameters are compile-time constants, and the table, made
      once for each formula, is never changed. */
  class CrcOptimal {
    const prm: CrcParams
    const table: array<Word>
    var rem: Word

    ghost predicate Valid()
      reads this, table
    {
      && prm.Valid() && |rem| == prm.width
      && (prm.bits >= CHAR_BIT ==> IsTable(table, CHAR_BIT, prm.width, prm.bits, prm.truncPoly, prm.reflectIn))
    }

    constructor (prm: CrcParams, initRem: Word)
      requires prm.Valid() && |initRem| == prm.width
      ensures Valid() && this.prm == prm && fresh(table)
      ensures rem == ReflectQ(prm, prm.reflectIn, initRem)
      ensures Shown(prm, rem) == Resize(initRem, prm.bits)
    {
      hide ReflectQ, IsTable, Shown, Resize;
      ResetShows(prm, initRem);
      var subOrder := if prm.bits < CHAR_BIT then prm.bits else CHAR_BIT;
      var t := MakePartialXorProductsTable(subOrder, prm.width, prm.bits, prm.truncPoly, prm.reflectIn);
      var r := DoReflect(prm, prm.reflectIn, initRem);
      this.prm, table, rem := prm, t, r;
    }

    static method DoReflect(prm: CrcParams, doIt: bool, x: Word) returns (y: Word)
      requires prm.Valid() && |x| == prm.width
      ensures y == ReflectQ(prm, doIt, x)
    {
      y := x;
      if doIt {
        if prm.bits > CHAR_BIT {
          y := ReflectUnsigned(x, prm.bits);
        } else {
          y := ReflectSubByte(x, prm.bits);
        }
      }
    }

    method GetInterimRemainder() returns (r: Word)
      requires Valid()
      ensures r == Resize(Shown(prm, rem), prm.width)
    {
      FinishOfShown(prm, rem);
      r := DoReflect(prm, prm.reflectIn, rem);
      r := LowBits(r, prm.bits);
    }

    method Reset(newRem: Word)
      requires Valid() && |newRem| == prm.width
      modifies this`rem
      ensures Valid() && rem == ReflectQ(prm, prm.reflectIn, newRem)
      ensures Shown(prm, rem) == Resize(newRem, prm.bits)
    {
      hide ReflectQ;
      ResetShows(prm, newRem);
      rem := DoReflect(prm, prm.reflectIn, newRem);
    }

    method ProcessByte(byte: Byte)
      requires Valid()
      modifies this`rem
      ensures Valid() && rem == OptimalUpdate(prm, old(rem), [byte])
    {
      ProcessBytes([byte]);
    }

    method ProcessBlock(buffer: seq<Byte>, bytesBegin: nat, bytesEnd: nat)
      requires Valid() && bytesBegin <= bytesEnd <= |buffer|
      modifies this`rem
      ensures Valid() && rem == OptimalUpdate(prm, old(rem), buffer[bytesBegin..bytesEnd])
    {
      ProcessBytes(buffer[bytesBegin..bytesEnd]);
    }

    /** crc_driver picks the loop. */
    method ProcessBytes(buffer: seq<Byte>)
      requires Valid()
      modifies this`rem
      ensures Valid() && rem == OptimalUpdate(prm, old(rem), buffer)
    {
      hide IsTable, SubByteReflection, CrcParams.DriverRun;
      if prm.bits < CHAR_BIT {
        var r := rem;
        if prm.reflectIn {
          r := ReflectSubByte(r, prm.bits);
        }
        r := SubByteCrcUpdate(prm, r, buffer);
        if prm.reflectIn {
          r := ReflectSubByte(r, prm.bits);
        }
        rem := r;
      } else if prm.reflectIn {
        rem := ReflectedByteCrcUpdate(prm, table, rem, buffer);
      } else {
        rem := DirectByteCrcUpdate(prm, table, rem, buffer);
      }
    }

    method Checksum() returns (c: Word)
      requires Valid()
      ensures c == Finish(prm, Shown(prm, rem))
      ensures |c| == prm.width
      ensures forall i :: 0 <= i < prm.bits ==>
        c[i] == (Shown(prm, rem)[if prm.reflectRem then prm.bits - 1 - i else i] != prm.finalXor[i])
      ensures forall i :: prm.bits <= i < prm.width ==> !c[i]
    {
      FinishBits(prm, Shown(prm, rem));
      FinishOfShown(prm, rem);
      var out := DoReflect(prm, prm.reflectRem != prm.reflectIn, rem);
      c := LowBits(Xor(out, prm.finalXor), prm.bits);
    }
  }

  /** The checksum of a block, by table. */
  method Crc(prm: CrcParams, buffer: seq<Byte>) returns (c: Word)
    requires prm.Valid()
    ensures c == OptimalChecksum(prm, prm.initRem, buffer)
    ensures NoStrayBits(prm, prm.initRem) ==> c == Checksum(prm, prm.initRem, buffer)
    ensures |c| == prm.width && forall i :: prm.bits <= i < prm.width ==> !c[i]
    ensures NoStrayBits(prm, prm.initRem) ==>
      exists r: Word ::
        && IsRemainder(prm.Poly(), Dividend(Resize(prm.initRem, prm.bits), MessageBits(prm.reflectIn, buffer)), r)
        && forall i :: 0 <= i < prm.bits ==>
             c[i] == (r[if prm.reflectRem then prm.bits - 1 - i else i] != prm.finalXor[i])
  {
    hide OptimalFinish, OptimalUpdate, ReflectQ, Shown, Finish, Feed, IsRemainder, Dividend, MessageBits;
    var computer := new CrcOptimal(prm, prm.initRem);
    computer.ProcessBytes(buffer);
    c := computer.Checksum();
    FinishOfShown(prm, computer.rem);
    if NoStrayBits(prm, prm.initRem) {
      OptimalAgrees(prm, prm.initRem, buffer);
      var r := Interim(prm, prm.initRem, buffer);
      FinishBits(prm, r);
      FeedIsTheRemainder(prm.Poly(), Resize(prm.initRem, prm.bits), MessageBits(prm.reflectIn, buffer), r);
    }
  }

  function Concat(chunks: seq<seq<Byte>>): (message: seq<Byte>) {
    if |chunks| == 0 then [] else Concat(chunks[..|chunks| - 1]) + chunks[|chunks| - 1]
  }

  /** One chunk is the message it is, and more chunks follow one another. */
  lemma {:induction false} ConcatJoins(a: seq<seq<Byte>>, b: seq<seq<Byte>>, m: seq<Byte>)
    ensures Concat([m]) == m
    ensures Concat(a + b) == Concat(a) + Concat(b)
    decreases |b|
  {
    assert [m][..0] == [];
    if |b| == 0 {
      assert a + b == a;
    } else {
      ConcatJoins(a, b[..|b| - 1], m);
      assert (a + b)[..|a + b| - 1] == a + b[..|b| - 1];
    }
  }

  /** A register that holds the remainder of one part holds, after the next part, that of both. */
  lemma NextChunk(prm: CrcParams, start: Word, message: seq<Byte>, chunk: seq<Byte>)
    requires prm.Valid() && |start| == prm.width
    ensures Interim(prm, start, message + chunk)
         == Feed(prm.Poly(), Interim(prm, start, message), MessageBits(prm.reflectIn, chunk))
  {
    MessageBitsConcat(prm.reflectIn, message, chunk);
    FeedConcat(prm.Poly(), Resize(start, prm.bits), MessageBits(prm.reflectIn, message),
               MessageBits(prm.reflectIn, chunk));
  }

  /** Saving the interim remainder and starting again from it restores the register. */
  lemma ResumeHolds(prm: CrcParams, rem: Word, r: Word)
    requires prm.Valid() && |rem| == prm.width && |r| == prm.bits
    requires Holds(prm, prm.reflectIn, rem, r)
    ensures Holds(prm, prm.reflectIn, ReflectQ(prm, prm.reflectIn, Resize(Shown(prm, rem), prm.width)), r)
  {
    hide Holds, Resize, ReflectQ, Shown;
    HoldsIsShown(prm, rem, r);
    WidenedIsClean(prm, r);
    ResetHolds(prm, Resize(r, prm.width));
  }

  lemma WidenedIsClean(prm: CrcParams, r: Word)
    requires prm.Valid() && |r| == prm.bits
    ensures NoStrayBits(prm, Resize(r, prm.width)) && Resize(Resize(r, prm.width), prm.bits) == r
  {
  }

  method ResumeBasic(basic: CrcBasic)
    requires basic.Valid()
    modifies basic`rem
    ensures basic.Valid() && basic.Register() == old(basic.Register())
  {
    hide Resize;
    ResizeTwice(basic.Register(), basic.width);
    var saved := basic.GetInterimRemainder();
    basic.Reset(saved);
  }

  method ResumeOptimal(optimal: CrcOptimal, ghost r: Word)
    requires optimal.Valid() && |r| == optimal.prm.bits
    requires Holds(optimal.prm, optimal.prm.reflectIn, optimal.rem, r)
    modifies optimal`rem
    ensures optimal.Valid() && Holds(optimal.prm, optimal.prm.reflectIn, optimal.rem, r)
  {
    hide Holds, Shown, Resize, ReflectQ, IsTable;
    ResumeHolds(optimal.prm, optimal.rem, r);
    var saved := optimal.GetInterimRemainder();
    optimal.Reset(saved);
  }

  /** Both classes, fed the same message in any chunks, each saved and resumed after whichever
      chunks one likes, end with one and the same checksum: that of the whole message. */
  method BothComputers(prm: CrcParams, chunks: seq<seq<Byte>>, saveSlow: set<nat>, saveFast: set<nat>)
    returns (slow: Word, fast: Word)
    requires prm.Valid() && NoStrayBits(prm, prm.initRem)
    ensures slow == fast == Checksum(prm, prm.initRem, Concat(chunks))
  {
    hide Holds, OptimalUpdate, Shown, ReflectQ, Finish, Feed, Resize, IsTable, NoStrayBits, MessageBits, Interim;
    var basic := new CrcBasic(prm.width, prm.bits, prm.truncPoly, prm.initRem, prm.finalXor,
                              prm.reflectIn, prm.reflectRem);
    var optimal := new CrcOptimal(prm, prm.initRem);
    ResetHolds(prm, prm.initRem);
    NothingSubmitted(prm, prm.initRem);
    var i := 0;
    while i < |chunks|
      invariant i <= |chunks|
      invariant basic.Valid() && basic.Params() == prm
      invariant optimal.Valid() && optimal.prm == prm
      invariant basic.Register() == Interim(prm, prm.initRem, Concat(chunks[..i]))
      invariant Holds(prm, prm.reflectIn, optimal.rem, Interim(prm, prm.initRem, Concat(chunks[..i])))
    {
      ghost var r := Interim(prm, prm.initRem, Concat(chunks[..i]));
      NextChunk(prm, prm.initRem, Concat(chunks[..i]), chunks[i]);
      assert chunks[..i + 1][..i] == chunks[..i];
      UpdateHolds(prm, optimal.rem, r, chunks[i]);
      basic.ProcessBytes(chunks[i]);
      optimal.ProcessBytes(chunks[i]);
      if i in saveSlow {
        ResumeBasic(basic);
      }
      if i in saveFast {
        ResumeOptimal(optimal, Interim(prm, prm.initRem, Concat(chunks[..i + 1])));
      }
      i := i + 1;
    }
    assert chunks[..|chunks|] == chunks;
    HoldsIsShown(prm, optimal.rem, Interim(prm, prm.initRem, Concat(chunks)));
    slow := basic.Checksum();
    fast := optimal.Checksum();
  }

  lemma NothingSubmitted(prm: CrcParams, start: Word)
    requires prm.Valid() && |start| == prm.width
    ensures Interim(prm, start, []) == Resize(start, prm.bits)
  {
  }

  // ----- The augmented form

  /** Building the table with the augmented routine, n zero bits behind each dividend, gives
      the same entries. */
  lemma {:induction false} SameTableEitherWay(poly: Word, dividend: seq<bool>)
    requires |poly| > 0
    ensures AugFeed(poly, Zeros(|poly|), dividend + Zeros(|poly|)) == Feed(poly, Zeros(|poly|), dividend)
  {
    hide Feed, AugFeed, Zeros;
    AugmentedAgrees(poly, Zeros(|poly|), dividend);
    CrcBurst.ZerosStayZero(poly, |poly|);
  }

  method AugmentedCrc(prm: CrcParams, buffer: seq<Byte>, initialRemainder: Word) returns (c: Word)
    requires prm.Valid() && prm.bits >= CHAR_BIT && |initialRemainder| == prm.width
    ensures c == Resize(AugFeed(prm.Poly(), Resize(initialRemainder, prm.bits), MessageBits(false, buffer)), prm.width)
  {
    hide AugFeed, IsTable;
    var table := MakePartialXorProductsTable(CHAR_BIT, prm.width, prm.bits, prm.truncPoly, false);
    c := AugmentedByteCrcUpdate(prm, table, initialRemainder, buffer);
    LowBitsOfResize(c, prm.bits);
    c := LowBits(c, prm.bits);
  }

  /** Extending the block by `bits` zero bits makes the augmented remainder the plain one. */
  lemma {:induction false} AugmentedCrcAgrees(prm: CrcParams, start: Word, message: seq<Byte>)
    requires prm.Valid() && |start| == prm.bits && prm.bits % CHAR_BIT == 0
    ensures AugFeed(prm.Poly(), start, MessageBits(false, message + ZeroBytes(prm.bits / CHAR_BIT)))
         == Feed(prm.Poly(), Feed(prm.Poly(), start, Zeros(prm.bits)), MessageBits(false, message))
  {
    hide Feed, AugFeed, Zeros, ZeroBytes, Resize;
    var count := prm.bits / CHAR_BIT;
    ZeroBytesAreZeros(count);
    MessageBitsConcat(false, message, ZeroBytes(count));
    AugmentedAgrees(prm.Poly(), start, MessageBits(false, message));
  }

  /** The bytes that carry a checksum in big-endian order. */
  predicate CarriesBigEndian(check: seq<Byte>, c: Word)
    requires CHAR_BIT * |check| == |c|
  {
    Reversed(MessageBits(false, check)) == c
  }

  /** Extending the block by a checksum instead gives zero exactly when it is the right one. */
  lemma {:induction false} ResidueConfirms(prm: CrcParams, message: seq<Byte>, check: seq<Byte>)
    requires prm.Valid() && CHAR_BIT * |check| == prm.bits
    ensures AugFeed(prm.Poly(), Zeros(prm.bits), MessageBits(false, message + check)) == Zeros(prm.bits)
       <==> CarriesBigEndian(check, Feed(prm.Poly(), Zeros(prm.bits), MessageBits(false, message)))
  {
    hide Feed, AugFeed, Zeros, Reversed, Resize;
    MessageBitsConcat(false, message, check);
    ResidueIsZero(prm.Poly(), Zeros(prm.bits), MessageBits(false, message), MessageBits(false, check));
    CrcBurst.ZerosStayZero(prm.Poly(), prm.bits);
  }
}
