/** The checksum both CRC classes promise, the value crc_optimal computes word by word, and
    exactly when the two are equal. */
module CrcChecksum {
  import opened BitWords
  import opened CrcDivision
  import opened CrcDetail
  import opened CrcDrivers
  import opened CrcBurst

  // ----- The promise

  /** Output processing of an interim remainder. */
  function Finish(prm: CrcParams, r: Word): (c: Word)
    requires prm.Valid() && |r| == prm.bits
    ensures |c| == prm.width
  {
    Resize(Xor(if prm.reflectRem then Reversed(r) else r, Resize(prm.finalXor, prm.bits)), prm.width)
  }

  function Interim(prm: CrcParams, start: Word, message: seq<Byte>): (r: Word)
    requires prm.Valid()
    ensures |r| == prm.bits
  {
    Feed(prm.Poly(), Resize(start, prm.bits), MessageBits(prm.reflectIn, message))
  }

  function Checksum(prm: CrcParams, start: Word, message: seq<Byte>): (c: Word)
    requires prm.Valid()
    ensures |c| == prm.width
  {
    Finish(prm, Interim(prm, start, message))
  }

  // ----- The table-driven computation

  /** possible_reflector: the two reflectors treat stray bits differently. */
  function ReflectQ(prm: CrcParams, doIt: bool, x: Word): (y: Word)
    requires prm.Valid() && |x| == prm.width
    ensures |y| == prm.width
  {
    if !doIt then x
    else if prm.bits > CHAR_BIT then Reflect(x, prm.bits)
    else SubByteReflection(x, prm.bits)
  }

  function OptimalUpdate(prm: CrcParams, rem: Word, message: seq<Byte>): (rem': Word)
    requires prm.Valid() && |rem| == prm.width
    ensures |rem'| == prm.width
  {
    if prm.reflectIn && prm.bits < CHAR_BIT then
      SubByteReflection(prm.DriverRun(SubByteReflection(rem, prm.bits), message), prm.bits)
    else
      prm.DriverRun(rem, message)
  }

  function OptimalFinish(prm: CrcParams, rem: Word): (c: Word)
    requires prm.Valid() && |rem| == prm.width
    ensures |c| == prm.width
  {
    LowBits(Xor(ReflectQ(prm, prm.reflectRem != prm.reflectIn, rem), prm.finalXor), prm.bits)
  }

  function OptimalInterim(prm: CrcParams, rem: Word): (r: Word)
    requires prm.Valid() && |rem| == prm.width
    ensures |r| == prm.width
  {
    LowBits(ReflectQ(prm, prm.reflectIn, rem), prm.bits)
  }

  function OptimalChecksum(prm: CrcParams, start: Word, message: seq<Byte>): (c: Word)
    requires prm.Valid() && |start| == prm.width
    ensures |c| == prm.width
  {
    OptimalFinish(prm, OptimalUpdate(prm, ReflectQ(prm, prm.reflectIn, start), message))
  }

  // ----- What the table-driven register stands for

  /** Reflected input keeps the register reflected, with nothing above it; direct input may
      leave anything in the unused high bits. */
  predicate Holds(prm: CrcParams, mirrored: bool, rem: Word, r: Word)
    requires prm.Valid() && |rem| == prm.width && |r| == prm.bits
  {
    if mirrored then rem == Resize(Reversed(r), prm.width) else Resize(rem, prm.bits) == r
  }

  predicate NoStrayBits(prm: CrcParams, start: Word)
    requires prm.Valid() && |start| == prm.width
  {
    prm.reflectIn && prm.bits > CHAR_BIT ==> forall i :: prm.bits <= i < prm.width ==> !start[i]
  }

  lemma ResetHolds(prm: CrcParams, start: Word)
    requires prm.Valid() && |start| == prm.width && NoStrayBits(prm, start)
    ensures Holds(prm, prm.reflectIn, ReflectQ(prm, prm.reflectIn, start), Resize(start, prm.bits))
  {
  }

  lemma SubByteHolds(prm: CrcParams, rem: Word, r: Word)
    requires prm.Valid() && |rem| == prm.width && |r| == prm.bits
    ensures Holds(prm, true, rem, r) ==> Holds(prm, false, SubByteReflection(rem, prm.bits), r)
    ensures Holds(prm, false, rem, r) ==> Holds(prm, true, SubByteReflection(rem, prm.bits), r)
  {
    if Holds(prm, true, rem, r) {
      assert Resize(SubByteReflection(rem, prm.bits), prm.bits) == r;
    }
    if Holds(prm, false, rem, r) {
      assert SubByteReflection(rem, prm.bits) == Resize(Reversed(r), prm.width);
    }
  }

  lemma DriverStepHolds(prm: CrcParams, rem: Word, r: Word, b: Byte)
    requires prm.Valid() && |rem| == prm.width && |r| == prm.bits
    requires Holds(prm, prm.reflectIn && prm.bits >= CHAR_BIT, rem, r)
    ensures Holds(prm, prm.reflectIn && prm.bits >= CHAR_BIT, prm.DriverStep(rem, b),
                  Feed(prm.Poly(), r, ByteBits(prm.reflectIn, b)))
  {
    hide Feed, Reversed, Xor, Shl, Shr, PartialProduct;
    if prm.bits >= CHAR_BIT {
      if prm.reflectIn {
        ReflectedStepMirrors(prm, r, b);
      } else {
        DirectStepDivides(prm, rem, b);
      }
    }
  }

  lemma {:induction false} DriverRunHolds(prm: CrcParams, rem: Word, r: Word, message: seq<Byte>)
    requires prm.Valid() && |rem| == prm.width && |r| == prm.bits
    requires Holds(prm, prm.reflectIn && prm.bits >= CHAR_BIT, rem, r)
    ensures Holds(prm, prm.reflectIn && prm.bits >= CHAR_BIT, prm.DriverRun(rem, message),
                  Feed(prm.Poly(), r, MessageBits(prm.reflectIn, message)))
    decreases |message|
  {
    hide Holds, ByteBits;
    if |message| > 0 {
      var k := |message| - 1;
      DriverRunHolds(prm, rem, r, message[..k]);
      DriverStepHolds(prm, prm.DriverRun(rem, message[..k]),
                      Feed(prm.Poly(), r, MessageBits(prm.reflectIn, message[..k])), message[k]);
      FeedConcat(prm.Poly(), r, MessageBits(prm.reflectIn, message[..k]), ByteBits(prm.reflectIn, message[k]));
    }
  }

  /** The reflected driver on a reflected register and the direct driver on reflected bytes stay
      mirror images of each other, for every length. */
  lemma {:induction false} DriversMirror(prm: CrcParams, rem: Word, message: seq<Byte>)
    requires prm.Valid() && |rem| == prm.width && prm.bits >= CHAR_BIT && prm.reflectIn
    ensures var direct := prm.(reflectIn := false);
      prm.DriverRun(Resize(Reversed(Resize(rem, prm.bits)), prm.width), message)
      == Resize(Reversed(Resize(direct.DriverRun(rem, MirroredBytes(message)), prm.bits)), prm.width)
  {
    hide Feed, Resize, Reversed, MessageBits, MirroredBytes, CrcParams.DriverRun;
    var direct, r := prm.(reflectIn := false), Resize(rem, prm.bits);
    assert direct.Poly() == prm.Poly();
    DriverRunHolds(prm, Resize(Reversed(r), prm.width), r, message);
    DriverRunHolds(direct, rem, r, MirroredBytes(message));
    MirroredBytesReadOtherWay(message);
  }

  /** Direct, reflected and sub-byte drivers all divide. */
  lemma {:induction false} UpdateHolds(prm: CrcParams, rem: Word, r: Word, message: seq<Byte>)
    requires prm.Valid() && |rem| == prm.width && |r| == prm.bits
    requires Holds(prm, prm.reflectIn, rem, r)
    ensures Holds(prm, prm.reflectIn, OptimalUpdate(prm, rem, message),
                  Feed(prm.Poly(), r, MessageBits(prm.reflectIn, message)))
  {
    hide Holds, Feed;
    if prm.reflectIn && prm.bits < CHAR_BIT {
      SubByteHolds(prm, rem, r);
      DriverRunHolds(prm, SubByteReflection(rem, prm.bits), r, message);
      SubByteHolds(prm, prm.DriverRun(SubByteReflection(rem, prm.bits), message),
                   Feed(prm.Poly(), r, MessageBits(prm.reflectIn, message)));
    } else {
      DriverRunHolds(prm, rem, r, message);
    }
  }

  /** The interim remainder a register word shows, whatever its stray bits. */
  function Shown(prm: CrcParams, rem: Word): (r: Word)
    requires prm.Valid() && |rem| == prm.width
    ensures |r| == prm.bits
  {
    if prm.reflectIn then Reversed(Resize(rem, prm.bits)) else Resize(rem, prm.bits)
  }

  lemma ReflectQShows(prm: CrcParams, doIt: bool, x: Word)
    requires prm.Valid() && |x| == prm.width
    ensures Resize(ReflectQ(prm, doIt, x), prm.bits)
         == if doIt then Reversed(Resize(x, prm.bits)) else Resize(x, prm.bits)
  {
  }

  lemma LowBitsOfXor(x: Word, y: Word, n: nat)
    requires |x| == |y| >= n
    ensures LowBits(Xor(x, y), n) == Resize(Xor(Resize(x, n), Resize(y, n)), |x|)
  {
  }

  /** Output processing reads only the remainder shown. */
  lemma FinishOfShown(prm: CrcParams, rem: Word)
    requires prm.Valid() && |rem| == prm.width
    ensures OptimalFinish(prm, rem) == Finish(prm, Shown(prm, rem))
    ensures OptimalInterim(prm, rem) == Resize(Shown(prm, rem), prm.width)
  {
    hide Xor, Resize, Reversed, ReflectQ, LowBits;
    var out := prm.reflectRem != prm.reflectIn;
    ReflectQShows(prm, out, rem);
    ReflectQShows(prm, prm.reflectIn, rem);
    LowBitsOfXor(ReflectQ(prm, out, rem), prm.finalXor, prm.bits);
    LowBitsOfResize(ReflectQ(prm, prm.reflectIn, rem), prm.bits);
    ReversedTwice(Resize(rem, prm.bits));
  }

  lemma HoldsIsShown(prm: CrcParams, rem: Word, r: Word)
    requires prm.Valid() && |rem| == prm.width && |r| == prm.bits
    requires Holds(prm, prm.reflectIn, rem, r)
    ensures Shown(prm, rem) == r
  {
    if prm.reflectIn {
      assert Resize(rem, prm.bits) == Reversed(r);
      assert Shown(prm, rem) == r;
    }
  }

  lemma FinishHolds(prm: CrcParams, rem: Word, r: Word)
    requires prm.Valid() && |rem| == prm.width && |r| == prm.bits
    requires Holds(prm, prm.reflectIn, rem, r)
    ensures OptimalFinish(prm, rem) == Finish(prm, r)
    ensures OptimalInterim(prm, rem) == Resize(r, prm.width)
  {
    hide Holds, OptimalFinish, OptimalInterim, Finish, Resize, Shown;
    HoldsIsShown(prm, rem, r);
    FinishOfShown(prm, rem);
  }

  // ----- Main results

  /** The fast form refines the slow one. */
  lemma {:induction false} OptimalAgrees(prm: CrcParams, start: Word, message: seq<Byte>)
    requires prm.Valid() && |start| == prm.width && NoStrayBits(prm, start)
    ensures OptimalChecksum(prm, start, message) == Checksum(prm, start, message)
  {
    hide Holds, Finish, OptimalFinish, OptimalUpdate, Feed, Resize, ReflectQ;
    var rem := ReflectQ(prm, prm.reflectIn, start);
    ResetHolds(prm, start);
    UpdateHolds(prm, rem, Resize(start, prm.bits), message);
    FinishHolds(prm, OptimalUpdate(prm, rem, message), Interim(prm, start, message));
  }

  /** Saving the interim remainder and resuming from it is invisible, as is any chunking. */
  lemma {:induction false} ResumeAgrees(prm: CrcParams, start: Word, first: seq<Byte>, second: seq<Byte>)
    requires prm.Valid() && |start| == prm.width && NoStrayBits(prm, start)
    ensures var rem := OptimalUpdate(prm, ReflectQ(prm, prm.reflectIn, start), first);
      OptimalChecksum(prm, OptimalInterim(prm, rem), second) == Checksum(prm, start, first + second)
  {
    hide Holds, OptimalFinish, OptimalUpdate, OptimalInterim, Feed, Resize, ReflectQ, Finish;
    var rem, r := ReflectQ(prm, prm.reflectIn, start), Interim(prm, start, first);
    ResetHolds(prm, start);
    UpdateHolds(prm, rem, Resize(start, prm.bits), first);
    FinishHolds(prm, OptimalUpdate(prm, rem, first), r);
    OptimalAgrees(prm, Resize(r, prm.width), second);
    assert Resize(Resize(r, prm.width), prm.bits) == r;
    MessageBitsConcat(prm.reflectIn, first, second);
    FeedConcat(prm.Poly(), Resize(start, prm.bits), MessageBits(prm.reflectIn, first),
               MessageBits(prm.reflectIn, second));
  }

  /** What output processing does to each bit: the order is turned round if asked, the mask is
      applied, and nothing is left above. */
  lemma FinishBits(prm: CrcParams, r: Word)
    requires prm.Valid() && |r| == prm.bits
    ensures forall i :: 0 <= i < prm.bits ==>
      Finish(prm, r)[i] == (r[if prm.reflectRem then prm.bits - 1 - i else i] != prm.finalXor[i])
    ensures forall i :: prm.bits <= i < prm.width ==> !Finish(prm, r)[i]
  {
  }

  /** Output processing loses nothing. */
  lemma FinishInjective(prm: CrcParams, r: Word, s: Word)
    requires prm.Valid() && |r| == |s| == prm.bits
    requires Finish(prm, r) == Finish(prm, s)
    ensures r == s
  {
    forall i | 0 <= i < prm.bits ensures r[i] == s[i] {
      var j := if prm.reflectRem then prm.bits - 1 - i else i;
      assert Finish(prm, r)[j] == Finish(prm, s)[j];
    }
  }

  // ----- Exactly when the two classes agree

  predicate LowClear(e: Word, k: nat) {
    forall i :: 0 <= i < k && i < |e| ==> !e[i]
  }

  lemma LowClearShifts(e: Word, a: nat, b: nat)
    requires LowClear(e, a + b)
    ensures LowClear(e, a) && LowClear(Shr(e, a), b)
  {
  }

  /** Stray bits that have not reached the look-up yet just move down with the register. */
  lemma StrayStep(prm: CrcParams, rem: Word, e: Word, b: Byte)
    requires prm.Valid() && |rem| == |e| == prm.width && prm.bits >= CHAR_BIT && prm.reflectIn
    requires LowClear(e, CHAR_BIT)
    ensures prm.DriverStep(Xor(rem, e), b) == Xor(prm.DriverStep(rem, b), Shr(e, CHAR_BIT))
  {
    hide PartialProduct;
    assert Resize(Xor(rem, e), CHAR_BIT) == Resize(rem, CHAR_BIT);
  }

  lemma {:induction false} StrayRun(prm: CrcParams, rem: Word, e: Word, message: seq<Byte>)
    requires prm.Valid() && |rem| == |e| == prm.width && prm.bits >= CHAR_BIT && prm.reflectIn
    requires LowClear(e, CHAR_BIT * |message|)
    ensures prm.DriverRun(Xor(rem, e), message) == Xor(prm.DriverRun(rem, message), Shr(e, CHAR_BIT * |message|))
    decreases |message|
  {
    hide Xor, Shr, LowClear, CrcParams.DriverStep;
    ShrShr(e, 0, 0);
    if |message| > 0 {
      var k := |message| - 1;
      LowClearShifts(e, 8 * k, 8);
      StrayRun(prm, rem, e, message[..k]);
      StrayStep(prm, prm.DriverRun(rem, message[..k]), Shr(e, 8 * k), message[k]);
      ShrShr(e, 8 * k, 8);
    }
  }

  lemma ShrShr(x: Word, a: nat, b: nat)
    ensures Shr(x, 0) == x
    ensures Shr(Shr(x, a), b) == Shr(x, a + b)
  {
  }

  lemma StrayPart(prm: CrcParams, start: Word) returns (e: Word)
    requires prm.Valid() && |start| == prm.width && prm.reflectIn && prm.bits > CHAR_BIT
    ensures |e| == prm.width
    ensures forall i :: 0 <= i < prm.width ==> e[i] == (i >= prm.bits && start[i])
    ensures ReflectQ(prm, true, start) == Xor(Resize(Reversed(Resize(start, prm.bits)), prm.width), e)
  {
    e := seq(prm.width, i requires 0 <= i < prm.width => i >= prm.bits && start[i]);
  }

  lemma {:induction false} FirstSetBit(x: Word, from: nat, p: nat) returns (q: nat)
    requires from <= p < |x| && x[p]
    ensures from <= q < |x| && x[q]
    ensures forall i :: from <= i < q ==> !x[i]
    decreases p
  {
    if i :| from <= i < p && x[i] {
      q := FirstSetBit(x, from, i);
    } else {
      q := p;
    }
  }

  /** A stray bit above a reflected register is pulled into it by a long enough message. */
  lemma {:induction false} StrayBitShows(prm: CrcParams, start: Word, message: seq<Byte>, p: nat)
    requires prm.Valid() && |start| == prm.width && prm.reflectIn && prm.bits > CHAR_BIT
    requires prm.bits <= p < prm.width && start[p]
    requires forall i :: prm.bits <= i < p ==> !start[i]
    requires CHAR_BIT * |message| <= p < prm.bits + CHAR_BIT * |message|
    ensures OptimalChecksum(prm, start, message) != Checksum(prm, start, message)
  {
    hide Xor, Shr, ReflectQ, Feed, OptimalFinish, Finish, Resize, Reversed;
    var r, r' := Resize(start, prm.bits), Interim(prm, start, message);
    var e := StrayPart(prm, start);
    var clean := Resize(Reversed(r), prm.width);
    StrayRun(prm, clean, e, message);
    UpdateHolds(prm, clean, r, message);
    var good, bad := prm.DriverRun(clean, message), prm.DriverRun(Xor(clean, e), message);
    var j := p - CHAR_BIT * |message|;
    assert Shr(e, CHAR_BIT * |message|)[j];
    assert good == Resize(Reversed(r'), prm.width);
    assert bad[j] != good[j];
    ShownAt(prm, bad, j);
    ShownAt(prm, good, j);
    HoldsIsShown(prm, good, r');
    FinishOfShown(prm, bad);
    if OptimalFinish(prm, bad) == Finish(prm, r') {
      FinishInjective(prm, Shown(prm, bad), r');
    }
  }

  lemma ShownAt(prm: CrcParams, rem: Word, j: nat)
    requires prm.Valid() && |rem| == prm.width && prm.reflectIn && j < prm.bits
    ensures Shown(prm, rem)[prm.bits - 1 - j] == rem[j]
  {
  }

  /** The two classes give the same checksum on every message exactly when the start value has
      no bits above a reflected register. */
  lemma {:induction false} AgreementExact(prm: CrcParams, start: Word)
    requires prm.Valid() && |start| == prm.width
    ensures (forall message :: OptimalChecksum(prm, start, message) == Checksum(prm, start, message))
       <==> NoStrayBits(prm, start)
  {
    hide OptimalChecksum, Checksum;
    if NoStrayBits(prm, start) {
      forall message ensures OptimalChecksum(prm, start, message) == Checksum(prm, start, message) {
        OptimalAgrees(prm, start, message);
      }
    } else {
      var p :| prm.bits <= p < prm.width && start[p];
      p := FirstSetBit(start, prm.bits, p);
      var message: seq<Byte> := seq((p - prm.bits) / CHAR_BIT + 1, i => Zeros(8));
      StrayBitShows(prm, start, message, p);
    }
  }

  // ----- The same question for the reflected augmented loop

  predicate CleanAbove(prm: CrcParams, start: Word)
    requires prm.Valid() && |start| == prm.width
  {
    forall i :: prm.bits <= i < prm.width ==> !start[i]
  }

  /** Its low bits are the mirror image of the augmented division. */
  ghost predicate MirrorsAugmented(prm: CrcParams, start: Word, bytes: seq<Byte>)
    requires prm.Valid() && |start| == prm.width && prm.bits >= CHAR_BIT
  {
    Resize(prm.ReflectedAugmentedRun(start, bytes), prm.bits)
    == Reversed(AugFeed(prm.Poly(), Reversed(Resize(start, prm.bits)), MessageBits(true, bytes)))
  }

  lemma CleanMirrors(prm: CrcParams, start: Word, bytes: seq<Byte>)
    requires prm.Valid() && |start| == prm.width && prm.bits >= CHAR_BIT && CleanAbove(prm, start)
    ensures MirrorsAugmented(prm, start, bytes)
  {
    hide Reversed, AugFeed, MessageBits, CrcParams.ReflectedAugmentedRun;
    var low := Resize(start, prm.bits);
    ReversedTwice(low);
    ReflectedAugmentedRunMirrors(prm, Reversed(low), bytes);
    assert Resize(low, prm.width) == start;
    ResizeTwice(Reversed(AugFeed(prm.Poly(), Reversed(low), MessageBits(true, bytes))), prm.width);
  }

  lemma ResizeTwice(x: Word, width: nat)
    requires |x| <= width
    ensures Resize(Resize(x, width), |x|) == x
  {
  }

  /** Zero bytes only shift stray bits down; other bytes might cover them. */
  lemma StrayAugmentedStep(prm: CrcParams, rem: Word, e: Word)
    requires prm.Valid() && |rem| == |e| == prm.width && prm.bits >= CHAR_BIT
    requires LowClear(e, CHAR_BIT)
    ensures prm.ReflectedAugmentedStep(Xor(rem, e), Zeros(8))
         == Xor(prm.ReflectedAugmentedStep(rem, Zeros(8)), Shr(e, CHAR_BIT))
  {
    hide PartialProduct;
    assert Resize(Xor(rem, e), CHAR_BIT) == Resize(rem, CHAR_BIT);
  }

  lemma {:induction false} StrayAugmentedRun(prm: CrcParams, rem: Word, e: Word, zeros: seq<Byte>)
    requires prm.Valid() && |rem| == |e| == prm.width && prm.bits >= CHAR_BIT
    requires LowClear(e, CHAR_BIT * |zeros|)
    requires forall k :: 0 <= k < |zeros| ==> zeros[k] == Zeros(8)
    ensures prm.ReflectedAugmentedRun(Xor(rem, e), zeros)
         == Xor(prm.ReflectedAugmentedRun(rem, zeros), Shr(e, CHAR_BIT * |zeros|))
    decreases |zeros|
  {
    hide Xor, Shr, Zeros, LowClear, CrcParams.ReflectedAugmentedStep;
    ShrShr(e, 0, 0);
    if |zeros| > 0 {
      var k := |zeros| - 1;
      LowClearShifts(e, 8 * k, 8);
      StrayAugmentedRun(prm, rem, e, zeros[..k]);
      StrayAugmentedStep(prm, prm.ReflectedAugmentedRun(rem, zeros[..k]), Shr(e, 8 * k));
      ShrShr(e, 8 * k, 8);
    }
  }

  lemma StrayBitBreaksMirror(prm: CrcParams, start: Word, count: nat, p: nat)
    requires prm.Valid() && |start| == prm.width && prm.bits >= CHAR_BIT
    requires prm.bits <= p < prm.width && start[p]
    requires forall i :: prm.bits <= i < p ==> !start[i]
    requires CHAR_BIT * count <= p < prm.bits + CHAR_BIT * count
    ensures !MirrorsAugmented(prm, start, ZeroBytes(count))
  {
    hide Xor, Shr, AugFeed, MessageBits, CrcParams.ReflectedAugmentedRun;
    var clean := Resize(Resize(start, prm.bits), prm.width);
    var e := seq(prm.width, i requires 0 <= i < prm.width => i >= prm.bits && start[i]);
    assert start == Xor(clean, e);
    assert Resize(clean, prm.bits) == Resize(start, prm.bits);
    CleanMirrors(prm, clean, ZeroBytes(count));
    StrayAugmentedRun(prm, clean, e, ZeroBytes(count));
    var j := p - CHAR_BIT * count;
    assert Shr(e, CHAR_BIT * count)[j];
    var good := prm.ReflectedAugmentedRun(clean, ZeroBytes(count));
    var bad := prm.ReflectedAugmentedRun(start, ZeroBytes(count));
    assert good[j] != bad[j];
    assert Resize(good, prm.bits)[j] != Resize(bad, prm.bits)[j];
  }

  /** The reflected augmented loop divides every message exactly when its start value has no
      bits above the order. */
  lemma MirrorsAugmentedExactly(prm: CrcParams, start: Word)
    requires prm.Valid() && |start| == prm.width && prm.bits >= CHAR_BIT
    ensures (forall bytes :: MirrorsAugmented(prm, start, bytes)) <==> CleanAbove(prm, start)
  {
    hide MirrorsAugmented;
    if CleanAbove(prm, start) {
      forall bytes ensures MirrorsAugmented(prm, start, bytes) {
        CleanMirrors(prm, start, bytes);
      }
    } else {
      var p :| prm.bits <= p < prm.width && start[p];
      p := FirstSetBit(start, prm.bits, p);
      StrayBitBreaksMirror(prm, start, (p - prm.bits) / CHAR_BIT + 1, p);
    }
  }

  // ----- Bursts

  /** Checksums that cannot collide on two messages of equal length differing inside at most
      `bits` consecutive processed bits. */
  ghost predicate ChecksumDetectsBursts(prm: CrcParams)
    requires prm.Valid()
  {
    forall start: Word, a: seq<Byte>, b: seq<Byte>, from: nat, length: nat ::
      |start| == prm.width && |a| == |b| && a != b && length <= prm.bits
      && from + length <= CHAR_BIT * |a|
      && DifferOnlyWithin(MessageBits(prm.reflectIn, a), MessageBits(prm.reflectIn, b), from, length)
      ==> Checksum(prm, start, a) != Checksum(prm, start, b)
  }

  lemma ChecksumDetectsBurstsExactly(prm: CrcParams)
    requires prm.Valid()
    ensures ChecksumDetectsBursts(prm) <==> prm.truncPoly[0]
  {
    hide Feed, MessageBits, DifferOnlyWithin;
    var poly, refl := prm.Poly(), prm.reflectIn;
    DetectsBurstsExactly(poly, refl);
    if prm.truncPoly[0] {
      forall start: Word, a: seq<Byte>, b: seq<Byte>, from: nat, length: nat |
        |start| == prm.width && |a| == |b| && a != b && length <= prm.bits
        && from + length <= CHAR_BIT * |a|
        && DifferOnlyWithin(MessageBits(refl, a), MessageBits(refl, b), from, length)
        ensures Checksum(prm, start, a) != Checksum(prm, start, b)
      {
        if Checksum(prm, start, a) == Checksum(prm, start, b) {
          FinishInjective(prm, Interim(prm, start, a), Interim(prm, start, b));
        }
      }
    } else {
      var r: Word, a: seq<Byte>, b: seq<Byte>, from: nat, length: nat :|
        |r| == |poly| && |a| == |b| && a != b && length <= |poly|
        && from + length <= CHAR_BIT * |a|
        && DifferOnlyWithin(MessageBits(refl, a), MessageBits(refl, b), from, length)
        && Feed(poly, r, MessageBits(refl, a)) == Feed(poly, r, MessageBits(refl, b));
      var start := Resize(r, prm.width);
      assert Resize(start, prm.bits) == r;
      assert Checksum(prm, start, a) == Checksum(prm, start, b);
    }
  }
}
