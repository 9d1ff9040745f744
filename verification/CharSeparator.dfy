/** char_separator (libs/boost/token_functions.hpp): a machine that emits one token per call,
    against a one-pass split of the text. */
module CharSeparators {

  datatype EmptyTokenPolicy = DropEmptyTokens | KeepEmptyTokens

  datatype CharClass = Plain | Kept | Dropped

  /** Which characters delimit. Without a list, punctuation may be kept and space dropped. */
  datatype Delimiters = Delimiters(droppedDelims: string, keptDelims: string, useIspunct: bool, useIsspace: bool,
                                   ispunct: char -> bool, isspace: char -> bool)
  {
    predicate IsKept(c: char) {
      if |keptDelims| > 0 then c in keptDelims else useIspunct && ispunct(c)
    }

    predicate IsDropped(c: char) {
      if |droppedDelims| > 0 then c in droppedDelims else useIsspace && isspace(c)
    }

    /** A character that is both is kept under one policy and dropped under the other. */
    function Class(policy: EmptyTokenPolicy, c: char): CharClass {
      match policy
      case KeepEmptyTokens => if IsKept(c) then Kept else if IsDropped(c) then Dropped else Plain
      case DropEmptyTokens => if IsDropped(c) then Dropped else if IsKept(c) then Kept else Plain
    }
  }

  // ----- The one-pass split

  /** All fields between delimiters, empty ones included, with kept delimiters interleaved. */
  function Split(d: Delimiters, policy: EmptyTokenPolicy, s: string): (fields: seq<string>)
    ensures |fields| > 0
  {
    if |s| == 0 then [""]
    else
      var rest := Split(d, policy, s[1..]);
      match d.Class(policy, s[0])
      case Kept => ["", [s[0]]] + rest
      case Dropped => [""] + rest
      case Plain => [[s[0]] + rest[0]] + rest[1..]
  }

  function NonEmpty(fields: seq<string>): (r: seq<string>) {
    if |fields| == 0 then []
    else (if fields[0] == "" then [] else [fields[0]]) + NonEmpty(fields[1..])
  }

  function Expected(d: Delimiters, policy: EmptyTokenPolicy, s: string): seq<string> {
    match policy
    case KeepEmptyTokens => Split(d, policy, s)
    case DropEmptyTokens => NonEmpty(Split(d, policy, s))
  }

  /** The split after the field at the front has been put out. */
  function AfterField(d: Delimiters, policy: EmptyTokenPolicy, s: string): seq<string> {
    if |s| == 0 then []
    else match d.Class(policy, s[0])
         case Kept => [[s[0]]] + Split(d, policy, s[1..])
         case Dropped => Split(d, policy, s[1..])
         case Plain => Split(d, policy, s)
  }

  /** What the machine has still to emit, from what it remembers. */
  function Remaining(d: Delimiters, policy: EmptyTokenPolicy, s: string, outputDone: bool): seq<string> {
    match policy
    case KeepEmptyTokens => if outputDone then AfterField(d, policy, s) else Split(d, policy, s)
    case DropEmptyTokens => NonEmpty(Split(d, policy, s))
  }

  lemma SplitAtDelimiter(d: Delimiters, policy: EmptyTokenPolicy, s: string)
    requires |s| > 0 ==> d.Class(policy, s[0]) != Plain
    ensures Split(d, policy, s) == [""] + AfterField(d, policy, s)
  {
  }

  /** A run of plain characters is one field. */
  lemma {:induction false} SplitWord(d: Delimiters, policy: EmptyTokenPolicy, s: string, k: nat)
    requires k <= |s|
    requires forall i :: 0 <= i < k ==> d.Class(policy, s[i]) == Plain
    requires k < |s| ==> d.Class(policy, s[k]) != Plain
    ensures Split(d, policy, s) == [s[..k]] + AfterField(d, policy, s[k..])
    decreases k
  {
    if k == 0 {
      assert s[0..] == s && s[..0] == "";
      SplitAtDelimiter(d, policy, s);
    } else {
      SplitWord(d, policy, s[1..], k - 1);
      assert s[1..][k - 1..] == s[k..];
      assert [s[0]] + s[1..][..k - 1] == s[..k];
    }
  }

  lemma NonEmptyCons(f: string, fields: seq<string>)
    ensures NonEmpty([f] + fields) == (if f == "" then [] else [f]) + NonEmpty(fields)
  {
    assert ([f] + fields)[1..] == fields;
  }

  lemma SkipDropped(d: Delimiters, s: string)
    requires |s| > 0 && d.IsDropped(s[0])
    ensures NonEmpty(Split(d, DropEmptyTokens, s)) == NonEmpty(Split(d, DropEmptyTokens, s[1..]))
  {
    NonEmptyCons("", Split(d, DropEmptyTokens, s[1..]));
  }

  lemma TakeKept(d: Delimiters, s: string)
    requires |s| > 0 && !d.IsDropped(s[0]) && d.IsKept(s[0])
    ensures NonEmpty(Split(d, DropEmptyTokens, s)) == [[s[0]]] + NonEmpty(Split(d, DropEmptyTokens, s[1..]))
  {
    var rest := Split(d, DropEmptyTokens, s[1..]);
    assert ["", [s[0]]] + rest == [""] + ([[s[0]]] + rest);
    NonEmptyCons("", [[s[0]]] + rest);
    NonEmptyCons([s[0]], rest);
  }

  lemma {:induction false} NonEmptyWord(d: Delimiters, s: string, k: nat)
    requires 0 < k <= |s|
    requires forall i :: 0 <= i < k ==> d.Class(DropEmptyTokens, s[i]) == Plain
    requires k < |s| ==> d.Class(DropEmptyTokens, s[k]) != Plain
    ensures NonEmpty(Split(d, DropEmptyTokens, s)) == [s[..k]] + NonEmpty(Split(d, DropEmptyTokens, s[k..]))
  {
    SplitWord(d, DropEmptyTokens, s, k);
    NonEmptyCons(s[..k], AfterField(d, DropEmptyTokens, s[k..]));
    SplitAtDelimiter(d, DropEmptyTokens, s[k..]);
    NonEmptyCons("", AfterField(d, DropEmptyTokens, s[k..]));
  }

  // ----- The same, seen from a position in the text

  function AheadAt(d: Delimiters, policy: EmptyTokenPolicy, text: string, next: nat, outputDone: bool): seq<string>
    requires next <= |text|
  {
    Remaining(d, policy, text[next..], outputDone)
  }

  predicate PlainRun(d: Delimiters, policy: EmptyTokenPolicy, text: string, start: nat, next: nat)
    requires start <= next <= |text|
  {
    && (forall i :: start <= i < next ==> d.Class(policy, text[i]) == Plain)
    && (next < |text| ==> d.Class(policy, text[next]) != Plain)
  }

  lemma PlainRunAt(d: Delimiters, policy: EmptyTokenPolicy, text: string, start: nat, next: nat)
    requires start <= next <= |text| && PlainRun(d, policy, text, start, next)
    ensures forall i :: 0 <= i < next - start ==> d.Class(policy, text[start..][i]) == Plain
    ensures next < |text| ==> d.Class(policy, text[start..][next - start]) != Plain
    ensures text[start..][next - start..] == text[next..]
    ensures text[start..][..next - start] == text[start..next]
  {
  }

  lemma DroppingAhead(d: Delimiters, text: string, next: nat, done: bool)
    requires next <= |text|
    ensures next == |text| ==> AheadAt(d, DropEmptyTokens, text, next, done) == []
    ensures next < |text| && d.IsDropped(text[next]) ==>
      AheadAt(d, DropEmptyTokens, text, next, done) == AheadAt(d, DropEmptyTokens, text, next + 1, done)
    ensures next < |text| && !d.IsDropped(text[next]) && d.IsKept(text[next]) ==>
      AheadAt(d, DropEmptyTokens, text, next, done)
      == [text[next..next + 1]] + AheadAt(d, DropEmptyTokens, text, next + 1, done)
  {
    var s := text[next..];
    if next == |text| {
      NonEmptyCons("", []);
      assert [""] + [] == [""];
    } else {
      assert s[1..] == text[next + 1..] && [s[0]] == text[next..next + 1];
      if d.IsDropped(s[0]) {
        SkipDropped(d, s);
      } else if d.IsKept(s[0]) {
        TakeKept(d, s);
      }
    }
  }

  lemma DroppingWord(d: Delimiters, text: string, start: nat, next: nat, done: bool)
    requires start < next <= |text| && PlainRun(d, DropEmptyTokens, text, start, next)
    ensures AheadAt(d, DropEmptyTokens, text, start, done)
         == [text[start..next]] + AheadAt(d, DropEmptyTokens, text, next, done)
  {
    PlainRunAt(d, DropEmptyTokens, text, start, next);
    NonEmptyWord(d, text[start..], next - start);
  }

  lemma KeepingAhead(d: Delimiters, text: string, next: nat)
    requires next <= |text|
    ensures next < |text| ==> d.Class(KeepEmptyTokens, text[next]) != Plain ==>
      AheadAt(d, KeepEmptyTokens, text, next, false) == [""] + AheadAt(d, KeepEmptyTokens, text, next, true)
    ensures next == |text| ==>
      AheadAt(d, KeepEmptyTokens, text, next, false) == [""] + AheadAt(d, KeepEmptyTokens, text, next, true)
      && AheadAt(d, KeepEmptyTokens, text, next, true) == []
    ensures next < |text| && d.IsKept(text[next]) ==>
      AheadAt(d, KeepEmptyTokens, text, next, true)
      == [text[next..next + 1]] + AheadAt(d, KeepEmptyTokens, text, next + 1, false)
    ensures next < |text| && !d.IsKept(text[next]) && d.IsDropped(text[next]) ==>
      AheadAt(d, KeepEmptyTokens, text, next, true) == AheadAt(d, KeepEmptyTokens, text, next + 1, false)
    ensures next < |text| && d.Class(KeepEmptyTokens, text[next]) == Plain ==>
      AheadAt(d, KeepEmptyTokens, text, next, true) == AheadAt(d, KeepEmptyTokens, text, next, false)
  {
    var s := text[next..];
    if next == |text| || d.Class(KeepEmptyTokens, s[0]) != Plain {
      SplitAtDelimiter(d, KeepEmptyTokens, s);
    }
    if next < |text| {
      assert s[1..] == text[next + 1..] && [s[0]] == text[next..next + 1];
    }
  }

  lemma KeepingWord(d: Delimiters, text: string, start: nat, next: nat)
    requires start <= next <= |text| && PlainRun(d, KeepEmptyTokens, text, start, next)
    ensures AheadAt(d, KeepEmptyTokens, text, start, false)
         == [text[start..next]] + AheadAt(d, KeepEmptyTokens, text, next, true)
  {
    PlainRunAt(d, KeepEmptyTokens, text, start, next);
    SplitWord(d, KeepEmptyTokens, text[start..], next - start);
  }

  // ----- The machine

  class CharSeparator {
    const delims: Delimiters
    const policy: EmptyTokenPolicy
    var outputDone: bool

    constructor (delims: Delimiters, policy: EmptyTokenPolicy)
      ensures this.delims == delims && this.policy == policy && !outputDone
    {
      this.delims, this.policy, outputDone := delims, policy, false;
    }

    /** Passing a separator by value. */
    constructor Copy(other: CharSeparator)
      ensures delims == other.delims && policy == other.policy && outputDone == other.outputDone
    {
      delims, policy, outputDone := other.delims, other.policy, other.outputDone;
    }

    /** Does nothing, as in the original. */
    method Reset()
      ensures outputDone == old(outputDone)
    {
    }

    ghost function Ahead(text: string, next: nat): seq<string>
      requires next <= |text|
      reads this
    {
      AheadAt(delims, policy, text, next, outputDone)
    }

    ghost function Measure(text: string, next: nat): int
      reads this
    {
      2 * (|text| - next) + if outputDone then 0 else 1
    }

    /** Stops at the end of the run of plain characters that begins at `start`. */
    method ScanWord(text: string, start: nat) returns (next: nat)
      requires start <= |text|
      ensures start <= next <= |text|
      ensures PlainRun(delims, policy, text, start, next)
      ensures start < |text| && delims.Class(policy, text[start]) == Plain ==> start < next
    {
      next := start;
      while next < |text| && !delims.IsDropped(text[next]) && !delims.IsKept(text[next])
        invariant start <= next <= |text|
        invariant forall i :: start <= i < next ==> delims.Class(policy, text[i]) == Plain
      {
        next := next + 1;
      }
    }

    /** operator(): one token, or false when there is none. */
    method Next(text: string, begin: nat) returns (more: bool, next: nat, tok: string)
      requires begin <= |text|
      modifies this
      ensures begin <= next <= |text|
      ensures more <==> old(Ahead(text, begin)) != []
      ensures more ==> [tok] + Ahead(text, next) == old(Ahead(text, begin))
      ensures more ==> Measure(text, next) < old(Measure(text, begin))
      ensures !more && policy == KeepEmptyTokens ==> outputDone
    {
      hide AheadAt;
      next, tok := begin, "";
      if policy == DropEmptyTokens {
        more, next, tok := NextDroppingEmpty(text, begin);
      } else {
        more, next, tok := NextKeepingEmpty(text, begin);
      }
    }

    method NextDroppingEmpty(text: string, begin: nat) returns (more: bool, next: nat, tok: string)
      requires begin <= |text| && policy == DropEmptyTokens
      modifies this
      ensures begin <= next <= |text|
      ensures more <==> old(Ahead(text, begin)) != []
      ensures more ==> [tok] + Ahead(text, next) == old(Ahead(text, begin))
      ensures more ==> Measure(text, next) < old(Measure(text, begin))
    {
      hide AheadAt, PlainRun;
      next, tok := begin, "";
      // skip past all dropped delimiters
      while next < |text| && delims.IsDropped(text[next])
        invariant begin <= next <= |text|
        invariant outputDone == old(outputDone)
        invariant Ahead(text, next) == Ahead(text, begin)
      {
        DroppingAhead(delims, text, next, outputDone);
        next := next + 1;
      }
      var start := next;
      DroppingAhead(delims, text, start, outputDone);
      if next == |text| {
        return false, next, tok;
      }
      if delims.IsKept(text[next]) {
        next := next + 1;
      } else {
        next := ScanWord(text, start);
        DroppingWord(delims, text, start, next, outputDone);
      }
      tok := text[start..next];
      return true, next, tok;
    }

    method NextKeepingEmpty(text: string, begin: nat) returns (more: bool, next: nat, tok: string)
      requires begin <= |text| && policy == KeepEmptyTokens
      modifies this
      ensures begin <= next <= |text|
      ensures more <==> old(Ahead(text, begin)) != []
      ensures more ==> [tok] + Ahead(text, next) == old(Ahead(text, begin))
      ensures more ==> Measure(text, next) < old(Measure(text, begin))
      ensures !more ==> outputDone
    {
      hide AheadAt, PlainRun;
      next, tok := begin, "";
      var start := next;
      KeepingAhead(delims, text, next);
      assert text[start..start] == "";
      if next == |text| {
        if !outputDone {
          outputDone := true;
          return true, next, "";
        }
        return false, next, tok;
      }
      if delims.IsKept(text[next]) {
        if !outputDone {
          outputDone := true;
        } else {
          next := next + 1;
          outputDone := false;
        }
      } else if !outputDone && delims.IsDropped(text[next]) {
        outputDone := true;
      } else {
        if delims.IsDropped(text[next]) {
          next := next + 1;
          start := next;
        } else {
          assert delims.Class(policy, text[start]) == Plain;
        }
        next := ScanWord(text, start);
        KeepingWord(delims, text, start, next);
        outputDone := true;
      }
      tok := text[start..next];
      return true, next, tok;
    }

    /** operator() called on this very object until it answers false. */
    method CallUntilDone(text: string) returns (tokens: seq<string>)
      modifies this
      ensures tokens == old(Remaining(delims, policy, text, outputDone))
      ensures policy == KeepEmptyTokens ==> outputDone
    {
      assert text[0..] == text;
      assert Ahead(text, 0) == Remaining(delims, policy, text, outputDone);
      hide Remaining, AheadAt;
      tokens := [];
      var next := 0;
      ghost var all := Ahead(text, 0);
      var more, tok := true, "";
      more, next, tok := Next(text, next);
      while more
        invariant next <= |text|
        invariant more ==> all == tokens + [tok] + Ahead(text, next)
        invariant !more ==> all == tokens && (policy == KeepEmptyTokens ==> outputDone)
        decreases more, Measure(text, next)
      {
        assert tokens + [tok] + Ahead(text, next) == (tokens + [tok]) + Ahead(text, next);
        tokens := tokens + [tok];
        ghost var ahead := Ahead(text, next);
        more, next, tok := Next(text, next);
        assert more ==> tokens + ahead == tokens + [tok] + Ahead(text, next);
      }
    }

    /** A token_iterator from begin to end. It works on its own copy of the separator, so this
        object stays as it is; an empty text yields nothing at all. */
    method Tokenize(text: string) returns (tokens: seq<string>)
      ensures tokens == if |text| == 0 then [] else Remaining(delims, policy, text, outputDone)
    {
      hide Remaining;
      tokens := [];
      var f := new CharSeparator.Copy(this);
      f.Reset();
      if |text| > 0 {
        tokens := f.CallUntilDone(text);
      }
    }
  }

  // ----- What a whole run gives

  /** One separator, any number of token_iterators over it: each run emits exactly the split of
      its text. */
  method TokenizeEach(delims: Delimiters, policy: EmptyTokenPolicy, texts: seq<string>)
    returns (runs: seq<seq<string>>)
    ensures |runs| == |texts|
    ensures forall i :: 0 <= i < |texts| ==>
      runs[i] == if |texts[i]| == 0 then [] else Expected(delims, policy, texts[i])
  {
    var f := new CharSeparator(delims, policy);
    runs := [];
    for i := 0 to |texts|
      invariant |runs| == i && !f.outputDone
      invariant forall j :: 0 <= j < i ==>
        runs[j] == if |texts[j]| == 0 then [] else Expected(delims, policy, texts[j])
    {
      var tokens := f.Tokenize(texts[i]);
      runs := runs + [tokens];
    }
  }

  function Count(d: Delimiters, policy: EmptyTokenPolicy, class_: CharClass, s: string): nat {
    if |s| == 0 then 0
    else (if d.Class(policy, s[0]) == class_ then 1 else 0) + Count(d, policy, class_, s[1..])
  }

  /** One field more than there are delimiters, and one token for each kept one. */
  lemma {:induction false} SplitCount(d: Delimiters, policy: EmptyTokenPolicy, s: string)
    ensures |Split(d, policy, s)| == 1 + Count(d, policy, Dropped, s) + 2 * Count(d, policy, Kept, s)
    decreases |s|
  {
    if |s| > 0 {
      SplitCount(d, policy, s[1..]);
    }
  }

  function Flatten(fields: seq<string>): string {
    if |fields| == 0 then "" else fields[0] + Flatten(fields[1..])
  }

  function WithoutDropped(d: Delimiters, policy: EmptyTokenPolicy, s: string): string {
    if |s| == 0 then ""
    else (if d.Class(policy, s[0]) == Dropped then "" else [s[0]]) + WithoutDropped(d, policy, s[1..])
  }

  lemma FlattenCons(f: string, fields: seq<string>)
    ensures Flatten([f] + fields) == f + Flatten(fields)
  {
    assert ([f] + fields)[1..] == fields;
  }

  lemma FlattenKept(c: char, fields: seq<string>)
    ensures Flatten(["", [c]] + fields) == [c] + Flatten(fields)
  {
    assert ["", [c]] + fields == [""] + ([[c]] + fields);
    FlattenCons("", [[c]] + fields);
    FlattenCons([c], fields);
  }

  lemma {:induction false} FlattenPlain(c: char, fields: seq<string>)
    requires |fields| > 0
    ensures Flatten([[c] + fields[0]] + fields[1..]) == [c] + Flatten(fields)
  {
    FlattenCons([c] + fields[0], fields[1..]);
    assert [c] + fields[0] + Flatten(fields[1..]) == [c] + (fields[0] + Flatten(fields[1..]));
  }

  /** Nothing but the dropped delimiters is lost, and nothing is reordered. */
  lemma {:induction false} SplitConserves(d: Delimiters, policy: EmptyTokenPolicy, s: string)
    ensures Flatten(Split(d, policy, s)) == WithoutDropped(d, policy, s)
    decreases |s|
  {
    if |s| > 0 {
      hide Flatten;
      var rest := Split(d, policy, s[1..]);
      SplitConserves(d, policy, s[1..]);
      match d.Class(policy, s[0])
      case Kept => FlattenKept(s[0], rest);
      case Dropped => FlattenCons("", rest);
      case Plain => FlattenPlain(s[0], rest);
    }
  }

  lemma {:induction false} NonEmptyConserves(fields: seq<string>)
    ensures Flatten(NonEmpty(fields)) == Flatten(fields)
    ensures "" !in NonEmpty(fields)
    decreases |fields|
  {
    if |fields| > 0 {
      NonEmptyConserves(fields[1..]);
      FlattenCons(fields[0], NonEmpty(fields[1..]));
      if fields[0] == "" {
        assert NonEmpty(fields) == NonEmpty(fields[1..]);
      }
    }
  }

  /** And every other field is there still, as often as before. */
  lemma {:induction false} NonEmptyKeeps(fields: seq<string>)
    ensures multiset(NonEmpty(fields)) == multiset(fields)["" := 0]
    decreases |fields|
  {
    if |fields| > 0 {
      NonEmptyKeeps(fields[1..]);
      assert fields == [fields[0]] + fields[1..];
    }
  }

  // ----- What that means for the delimiter strings

  /** The text without the characters that go. */
  function Without(s: string, gone: char -> bool): string {
    if |s| == 0 then "" else (if gone(s[0]) then "" else [s[0]]) + Without(s[1..], gone)
  }

  /** No token has a character that goes in it, one that stands alone is a token of its own, and
      nothing else is lost. */
  ghost predicate Delivers(s: string, gone: char -> bool, alone: char -> bool, tokens: seq<string>) {
    && (forall tok, c :: tok in tokens && c in tok ==> !gone(c))
    && (forall tok, c :: tok in tokens && c in tok && alone(c) ==> tok == [c])
    && Flatten(tokens) == Without(s, gone)
  }

  lemma {:induction false} SplitClasses(d: Delimiters, policy: EmptyTokenPolicy, s: string)
    ensures forall tok, c :: tok in Split(d, policy, s) && c in tok ==> d.Class(policy, c) != Dropped
    ensures forall tok, c :: tok in Split(d, policy, s) && c in tok && d.Class(policy, c) == Kept ==> tok == [c]
    ensures forall c :: c in Split(d, policy, s)[0] ==> d.Class(policy, c) == Plain
    decreases |s|
  {
    hide Delimiters.Class;
    if |s| > 0 {
      SplitClasses(d, policy, s[1..]);
      var rest := Split(d, policy, s[1..]);
      assert rest[0] in rest;
    }
  }

  lemma {:induction false} WithoutByClass(d: Delimiters, policy: EmptyTokenPolicy, s: string, gone: char -> bool)
    requires forall c :: gone(c) <==> d.Class(policy, c) == Dropped
    ensures WithoutDropped(d, policy, s) == Without(s, gone)
    decreases |s|
  {
    if |s| > 0 {
      WithoutByClass(d, policy, s[1..], gone);
    }
  }

  lemma {:induction false} NonEmptyAmong(fields: seq<string>)
    ensures forall tok :: tok in NonEmpty(fields) ==> tok in fields
    decreases |fields|
  {
    if |fields| > 0 {
      NonEmptyAmong(fields[1..]);
    }
  }

  lemma DeliversByClass(d: Delimiters, policy: EmptyTokenPolicy, s: string, gone: char -> bool, alone: char -> bool)
    requires forall c :: gone(c) <==> d.Class(policy, c) == Dropped
    requires forall c :: alone(c) <==> d.Class(policy, c) == Kept
    ensures Delivers(s, gone, alone, Expected(d, policy, s))
  {
    hide Split, NonEmpty, Delimiters.Class, Flatten;
    SplitClasses(d, policy, s);
    SplitConserves(d, policy, s);
    WithoutByClass(d, policy, s, gone);
    NonEmptyAmong(Split(d, policy, s));
    NonEmptyConserves(Split(d, policy, s));
  }

  /** Made from two lists, a separator drops the characters of the first and sets apart those of
      the second; one in both lists is dropped when empty tokens are, and kept when they are. */
  lemma ListsDecide(d: Delimiters, policy: EmptyTokenPolicy, s: string)
    requires !d.useIspunct && !d.useIsspace
    ensures policy == DropEmptyTokens ==>
      Delivers(s, c => c in d.droppedDelims, c => c in d.keptDelims && c !in d.droppedDelims, Expected(d, policy, s))
    ensures policy == KeepEmptyTokens ==>
      Delivers(s, c => c in d.droppedDelims && c !in d.keptDelims, c => c in d.keptDelims, Expected(d, policy, s))
  {
    hide Expected, Delivers;
    if policy == DropEmptyTokens {
      DeliversByClass(d, policy, s, c => c in d.droppedDelims, c => c in d.keptDelims && c !in d.droppedDelims);
    } else {
      DeliversByClass(d, policy, s, c => c in d.droppedDelims && c !in d.keptDelims, c => c in d.keptDelims);
    }
  }

  /** Made from nothing, it drops white space, sets punctuation apart, and drops empty tokens. */
  lemma DefaultDecides(d: Delimiters, s: string)
    requires d.droppedDelims == "" && d.keptDelims == "" && d.useIspunct && d.useIsspace
    ensures Delivers(s, d.isspace, c => d.ispunct(c) && !d.isspace(c), Expected(d, DropEmptyTokens, s))
  {
    hide Expected, Delivers;
    DeliversByClass(d, DropEmptyTokens, s, d.isspace, c => d.ispunct(c) && !d.isspace(c));
  }

  /** With outputDone left set, as reset() leaves it, a run under keep_empty_tokens is right
      exactly when its text begins with a plain character; otherwise it loses just the empty
      field at the front. */
  lemma SecondRun(d: Delimiters, s: string)
    ensures Remaining(d, KeepEmptyTokens, s, true) == Split(d, KeepEmptyTokens, s)
       <==> |s| > 0 && d.Class(KeepEmptyTokens, s[0]) == Plain
    ensures |s| == 0 || d.Class(KeepEmptyTokens, s[0]) != Plain ==>
      Split(d, KeepEmptyTokens, s) == [""] + Remaining(d, KeepEmptyTokens, s, true)
  {
    if |s| == 0 || d.Class(KeepEmptyTokens, s[0]) != Plain {
      SplitAtDelimiter(d, KeepEmptyTokens, s);
    }
  }

  /** One object called directly, to the end of a first text and then over a second: the second
      run is the one with outputDone set. */
  method RunTwice(delims: Delimiters, first: string, second: string) returns (tokens: seq<string>)
    ensures tokens == Remaining(delims, KeepEmptyTokens, second, true)
  {
    var f := new CharSeparator(delims, KeepEmptyTokens);
    var _ := f.CallUntilDone(first);
    f.Reset();
    tokens := f.CallUntilDone(second);
  }
}
