/** escaped_list_separator (libs/boost/token_functions.hpp): quoted, escaped fields, one per
    call, against a one-pass parse of the text; and the round trip from fields to text. */
module EscapedLists {
  import opened Wrappers

  datatype Error = CannotEndWithEscape | UnknownEscapeSequence

  /** The characters in each of the three roles; escape is looked for first, then separator. */
  datatype Roles = Roles(escape: string, separator: string, quote: string)

  /** The complete fields, and the exception that ended the parse, if one did. */
  datatype Parsed = Parsed(fields: seq<string>, error: Option<Error>)

  // ----- The one-pass parse

  /** A character joins the field in progress, unless that field is lost to an exception. */
  function Join(c: char, rest: Parsed): Parsed {
    if |rest.fields| == 0 then rest
    else Parsed([[c] + rest.fields[0]] + rest.fields[1..], rest.error)
  }

  /** What an escaped character stands for. */
  function Unescaped(roles: Roles, c: char): Option<char> {
    if c == 'n' then Some('\n')
    else if c in roles.quote || c in roles.separator || c in roles.escape then Some(c)
    else None
  }

  function Parse(roles: Roles, s: string, inQuote: bool): (p: Parsed)
    ensures p.error.None? ==> |p.fields| > 0
  {
    if |s| == 0 then Parsed([""], None)
    else if s[0] in roles.escape then
      if |s| == 1 then Parsed([], Some(CannotEndWithEscape))
      else match Unescaped(roles, s[1])
           case Some(c) => Join(c, Parse(roles, s[2..], inQuote))
           case None => Parsed([], Some(UnknownEscapeSequence))
    else if s[0] in roles.separator then
      if inQuote then Join(s[0], Parse(roles, s[1..], inQuote))
      else
        var rest := Parse(roles, s[1..], false);
        Parsed([""] + rest.fields, rest.error)
    else if s[0] in roles.quote then Parse(roles, s[1..], !inQuote)
    else Join(s[0], Parse(roles, s[1..], inQuote))
  }

  /** What the machine has still to deliver. A separator at the very end owes one blank field. */
  function Remaining(roles: Roles, s: string, last: bool): Parsed {
    if |s| == 0 && !last then Parsed([], None) else Parse(roles, s, false)
  }

  /** A prefix already scanned into the token, put before what is left. */
  function Prepend(tok: string, rest: Parsed): Parsed {
    if |rest.fields| == 0 then rest
    else Parsed([tok + rest.fields[0]] + rest.fields[1..], rest.error)
  }

  lemma PrependJoin(tok: string, c: char, rest: Parsed)
    ensures Prepend(tok, Join(c, rest)) == Prepend(tok + [c], rest)
  {
    if |rest.fields| > 0 {
      assert tok + ([c] + rest.fields[0]) == (tok + [c]) + rest.fields[0];
    }
  }

  lemma PrependNothing(rest: Parsed)
    ensures Prepend("", rest) == rest
  {
    if |rest.fields| > 0 {
      assert [rest.fields[0]] + rest.fields[1..] == rest.fields;
      assert "" + rest.fields[0] == rest.fields[0];
    }
  }

  // ----- The machine

  datatype Step = Token | Finished | Thrown(error: Error)

  class EscapedListSeparator {
    const roles: Roles
    var last: bool

    constructor (roles: Roles)
      ensures this.roles == roles && !last
    {
      this.roles, last := roles, false;
    }

    /** Passing a separator by value. */
    constructor Copy(other: EscapedListSeparator)
      ensures roles == other.roles && last == other.last
    {
      roles, last := other.roles, other.last;
    }

    method Reset()
      modifies this
      ensures !last
    {
      last := false;
    }

    ghost function Ahead(text: string, next: nat): Parsed
      requires next <= |text|
      reads this
    {
      Remaining(roles, text[next..], last)
    }

    /** `position` stays on the escaped character, for the caller's loop to step over. */
    method DoEscape(text: string, next: nat, tok: string) returns (step: Step, position: nat, tok': string)
      requires next < |text|
      ensures next <= position <= |text|
      ensures next + 1 == |text| ==> step == Thrown(CannotEndWithEscape)
      ensures next + 1 < |text| ==>
        match Unescaped(roles, text[next + 1])
        case Some(c) => step == Token && position == next + 1 && tok' == tok + [c]
        case None => step == Thrown(UnknownEscapeSequence)
      ensures next + 1 < |text| && text[next + 1] == 'n' ==> tok' == tok + "\n"
    {
      position, tok' := next + 1, tok;
      if position == |text| {
        return Thrown(CannotEndWithEscape), position, tok';
      }
      if text[position] == 'n' {
        return Token, position, tok + ['\n'];
      } else if text[position] in roles.quote {
        return Token, position, tok + [text[position]];
      } else if text[position] in roles.separator {
        return Token, position, tok + [text[position]];
      } else if text[position] in roles.escape {
        return Token, position, tok + [text[position]];
      } else {
        return Thrown(UnknownEscapeSequence), position, tok';
      }
    }

    /** operator(): a field, the end, or an exception. */
    method Next(text: string, begin: nat) returns (step: Step, next: nat, tok: string)
      requires begin <= |text|
      modifies this
      ensures begin <= next <= |text|
      ensures var before := old(Ahead(text, begin));
        match step
        case Token => before.fields != []
                      && [tok] + Ahead(text, next).fields == before.fields && Ahead(text, next).error == before.error
        case Finished => before == Parsed([], None)
        case Thrown(e) => before == Parsed([], Some(e))
      ensures step == Token ==> next > begin || (old(last) && !last)
    {
      hide Parse, Join, Prepend;
      next, tok := begin, "";
      var inQuote := false;
      if next == |text| {
        assert text[next..] == "";
        if last {
          last := false;
          ParseEnd(roles);
          return Token, next, tok;
        }
        return Finished, next, tok;
      }
      last := false;
      PrependNothing(Parse(roles, text[next..], false));
      ghost var all := Parse(roles, text[begin..], false);
      while next < |text|
        invariant begin <= next <= |text|
        invariant !last
        invariant all == Prepend(tok, Parse(roles, text[next..], inQuote))
      {
        ghost var s := text[next..];
        ParseHead(roles, s, inQuote, tok);
        assert s[1..] == text[next + 1..];
        if text[next] in roles.escape {
          assert |s| > 1 ==> s[2..] == text[next + 2..];
          step, next, tok := DoEscape(text, next, tok);
          if step.Thrown? {
            return step, next, tok;
          }
        } else if text[next] in roles.separator {
          if !inQuote {
            next := next + 1;
            // one more field is owed, if only a blank one
            last := true;
            return Token, next, tok;
          } else {
            tok := tok + [text[next]];
          }
        } else if text[next] in roles.quote {
          inQuote := !inQuote;
        } else {
          tok := tok + [text[next]];
        }
        next := next + 1;
      }
      assert text[next..] == "";
      ParseEnd(roles);
      ParseHead(roles, "", inQuote, tok);
      return Token, next, tok;
    }

    /** operator() called on this object until it answers false or throws. */
    method CallUntilDone(text: string) returns (result: Parsed)
      modifies this
      ensures result == old(Remaining(roles, text, last))
    {
      assert text[0..] == text;
      ghost var all := Ahead(text, 0);
      hide Parse, Remaining;
      var fields: seq<string>, next := [], 0;
      assert [] + all.fields == all.fields;
      while true
        invariant next <= |text|
        invariant all == Parsed(fields + Ahead(text, next).fields, Ahead(text, next).error)
        decreases |text| - next, last
      {
        var step, tok;
        ghost var ahead := Ahead(text, next).fields;
        step, next, tok := Next(text, next);
        match step
        case Token =>
          assert fields + ahead == (fields + [tok]) + Ahead(text, next).fields;
          fields := fields + [tok];
        case Finished =>
          assert fields + [] == fields;
          return Parsed(fields, None);
        case Thrown(e) =>
          assert fields + [] == fields;
          return Parsed(fields, Some(e));
      }
    }

    /** A token_iterator works on its own copy, which it resets; an empty text yields nothing. */
    method Tokenize(text: string) returns (result: Parsed)
      ensures result == if |text| == 0 then Parsed([], None) else Parse(roles, text, false)
    {
      hide Parse;
      var f := new EscapedListSeparator.Copy(this);
      f.Reset();
      result := Parsed([], None);
      if |text| > 0 {
        result := f.CallUntilDone(text);
      }
    }
  }

  lemma ParseEnd(roles: Roles)
    ensures Parse(roles, "", false) == Parsed([""], None)
  {
  }

  /** One character's worth of Parse, seen with a partial token before it. */
  lemma ParseHead(roles: Roles, s: string, inQuote: bool, tok: string)
    ensures |s| == 0 ==> Prepend(tok, Parse(roles, s, inQuote)) == Parsed([tok], None)
    ensures |s| > 0 && s[0] in roles.escape ==>
      if |s| == 1 then
        Parse(roles, s, inQuote) == Prepend(tok, Parse(roles, s, inQuote)) == Parsed([], Some(CannotEndWithEscape))
      else match Unescaped(roles, s[1])
           case Some(c) => Prepend(tok, Parse(roles, s, inQuote)) == Prepend(tok + [c], Parse(roles, s[2..], inQuote))
           case None => Prepend(tok, Parse(roles, s, inQuote)) == Parsed([], Some(UnknownEscapeSequence))
    ensures |s| > 0 && s[0] !in roles.escape && s[0] in roles.separator ==>
      var rest := Parse(roles, s[1..], inQuote);
      if inQuote then Prepend(tok, Parse(roles, s, inQuote)) == Prepend(tok + [s[0]], rest)
      else Prepend(tok, Parse(roles, s, inQuote)) == Parsed([tok] + rest.fields, rest.error)
    ensures |s| > 0 && s[0] !in roles.escape && s[0] !in roles.separator && s[0] in roles.quote ==>
      Prepend(tok, Parse(roles, s, inQuote)) == Prepend(tok, Parse(roles, s[1..], !inQuote))
    ensures |s| > 0 && s[0] !in roles.escape && s[0] !in roles.separator && s[0] !in roles.quote ==>
      Prepend(tok, Parse(roles, s, inQuote)) == Prepend(tok + [s[0]], Parse(roles, s[1..], inQuote))
  {
    hide Join;
    assert tok + "" == tok;
    if |s| > 1 && Unescaped(roles, s[1]).Some? {
      PrependJoin(tok, Unescaped(roles, s[1]).value, Parse(roles, s[2..], inQuote));
    }
    if |s| > 0 {
      var rest := Parse(roles, s[1..], inQuote);
      PrependJoin(tok, s[0], rest);
      assert ([""] + rest.fields)[1..] == rest.fields;
    }
  }

  // ----- Escapes and precedence

  /** An escaped n is a line break whatever the roles, an escaped character with a role is that
      character, and nothing else may be escaped. */
  lemma EscapeMeaning(roles: Roles, e: char, x: char, inQuote: bool)
    requires e in roles.escape
    ensures Parse(roles, [e, x], inQuote)
         == if x == 'n' then Parsed(["\n"], None)
            else if x in roles.escape || x in roles.separator || x in roles.quote then Parsed([[x]], None)
            else Parsed([], Some(UnknownEscapeSequence))
    ensures Parse(roles, [e], inQuote) == Parsed([], Some(CannotEndWithEscape))
  {
    assert [e, x][2..] == "" && ['\n'] + "" == "\n" && [x] + "" == [x];
    assert Parse(roles, "", inQuote) == Parsed([""], None);
  }

  /** A separator separates outside quotes and is itself inside, even if it is also a quote. */
  lemma SeparatorFirst(roles: Roles, c: char)
    requires c in roles.separator && c !in roles.escape
    ensures Parse(roles, [c], false) == Parsed(["", ""], None)
    ensures Parse(roles, [c], true) == Parsed([[c]], None)
  {
    assert [c][1..] == "" && [c] + "" == [c];
  }

  // ----- The round trip

  /** The roles overlap nowhere, and e, c and q are characters in them. */
  predicate ProperRoles(roles: Roles, e: char, c: char, q: char) {
    && e in roles.escape && c in roles.separator && q in roles.quote
    && (forall x :: x in roles.escape ==> x !in roles.separator && x !in roles.quote)
    && (forall x :: x in roles.separator ==> x !in roles.quote)
  }

  /** Three ways to write a field: everything special escaped, without or within quotes, or
      within quotes with separators left as they are. */
  datatype Style = Bare | Quoted | QuotedRaw

  predicate MustEscape(roles: Roles, style: Style, x: char) {
    x in roles.escape || x in roles.quote || (x in roles.separator && style != QuotedRaw)
  }

  function Escaped(roles: Roles, style: Style, e: char, x: char): string {
    if MustEscape(roles, style, x) then [e, x] else [x]
  }

  function EscapeAll(roles: Roles, style: Style, e: char, field: string): string {
    if |field| == 0 then "" else Escaped(roles, style, e, field[0]) + EscapeAll(roles, style, e, field[1..])
  }

  function Written(roles: Roles, style: Style, e: char, q: char, field: string): string {
    if style == Bare then EscapeAll(roles, style, e, field) else [q] + EscapeAll(roles, style, e, field) + [q]
  }

  function Encode(roles: Roles, style: Style, e: char, c: char, q: char, fields: seq<string>): string
    requires |fields| > 0
  {
    var first := Written(roles, style, e, q, fields[0]);
    if |fields| == 1 then first else first + [c] + Encode(roles, style, e, c, q, fields[1..])
  }

  /** What one character of a field becomes is read back as that character. */
  lemma ParseOne(roles: Roles, style: Style, e: char, c: char, q: char, x: char, rest: string)
    requires ProperRoles(roles, e, c, q) && !MustEscape(roles, style, 'n')
    ensures Parse(roles, Escaped(roles, style, e, x) + rest, style != Bare)
         == Join(x, Parse(roles, rest, style != Bare))
  {
    hide Join;
    if MustEscape(roles, style, x) {
      var text := [e, x] + rest;
      assert text[2..] == rest;
    } else {
      var text := [x] + rest;
      assert text[1..] == rest;
    }
  }

  /** An escaped field is read back verbatim. */
  lemma {:induction false} ParseEscaped(roles: Roles, style: Style, e: char, c: char, q: char, field: string,
                                        tail: string)
    requires ProperRoles(roles, e, c, q) && !MustEscape(roles, style, 'n')
    ensures Parse(roles, EscapeAll(roles, style, e, field) + tail, style != Bare)
         == Prepend(field, Parse(roles, tail, style != Bare))
    decreases |field|
  {
    hide Parse, Join, Prepend, MustEscape, Escaped, ProperRoles;
    if |field| == 0 {
      PrependNothing(Parse(roles, tail, style != Bare));
      assert "" + tail == tail;
    } else {
      var x, rest := field[0], EscapeAll(roles, style, e, field[1..]) + tail;
      ParseEscaped(roles, style, e, c, q, field[1..], tail);
      ParseOne(roles, style, e, c, q, x, rest);
      JoinPrepend(x, field[1..], Parse(roles, tail, style != Bare));
      assert EscapeAll(roles, style, e, field) + tail == Escaped(roles, style, e, x) + rest;
      assert [x] + field[1..] == field;
    }
  }

  lemma JoinPrepend(x: char, field: string, rest: Parsed)
    ensures Join(x, Prepend(field, rest)) == Prepend([x] + field, rest)
  {
    if |rest.fields| > 0 {
      assert [x] + (field + rest.fields[0]) == ([x] + field) + rest.fields[0];
    }
  }

  lemma ParseWritten(roles: Roles, style: Style, e: char, c: char, q: char, field: string, tail: string)
    requires ProperRoles(roles, e, c, q) && !MustEscape(roles, style, 'n')
    ensures Parse(roles, Written(roles, style, e, q, field) + tail, false) == Prepend(field, Parse(roles, tail, false))
  {
    hide Prepend, EscapeAll;
    if style == Bare {
      ParseEscaped(roles, style, e, c, q, field, tail);
    } else {
      var text := Written(roles, style, e, q, field) + tail;
      assert text[1..] == EscapeAll(roles, style, e, field) + ([q] + tail);
      ParseEscaped(roles, style, e, c, q, field, [q] + tail);
      assert ([q] + tail)[1..] == tail;
    }
  }

  /** A quote that is never closed is no error. */
  lemma ParseOpenQuote(roles: Roles, style: Style, e: char, c: char, q: char, field: string)
    requires ProperRoles(roles, e, c, q) && !MustEscape(roles, style, 'n') && style != Bare
    ensures Parse(roles, [q] + EscapeAll(roles, style, e, field), false) == Parsed([field], None)
  {
    var text := [q] + EscapeAll(roles, style, e, field);
    assert text[1..] == EscapeAll(roles, style, e, field) + "";
    ParseEscaped(roles, style, e, c, q, field, "");
    assert field + "" == field && [field] + [] == [field];
  }

  lemma ParseSeparator(roles: Roles, c: char, after: string)
    requires c in roles.separator && c !in roles.escape
    ensures Parse(roles, [c] + after, false)
         == Parsed([""] + Parse(roles, after, false).fields, Parse(roles, after, false).error)
  {
    assert ([c] + after)[1..] == after;
  }

  lemma PrependFirst(field: string, fields: seq<string>, error: Option<Error>)
    ensures Prepend(field, Parsed([""] + fields, error)) == Parsed([field] + fields, error)
  {
    assert ([""] + fields)[1..] == fields && field + "" == field;
  }

  /** The fields before a separator are delivered, whatever comes after it, exceptions included. */
  lemma {:induction false} ParseThenRest(roles: Roles, style: Style, e: char, c: char, q: char, fields: seq<string>,
                                         tail: string)
    requires ProperRoles(roles, e, c, q) && !MustEscape(roles, style, 'n') && |fields| > 0
    ensures var rest := Parse(roles, tail, false);
      Parse(roles, Encode(roles, style, e, c, q, fields) + [c] + tail, false)
      == Parsed(fields + rest.fields, rest.error)
    decreases |fields|
  {
    hide Written, Parse;
    var first, rest := Written(roles, style, e, q, fields[0]), Parse(roles, tail, false);
    var after := if |fields| == 1 then tail else Encode(roles, style, e, c, q, fields[1..]) + [c] + tail;
    assert Encode(roles, style, e, c, q, fields) + [c] + tail == first + ([c] + after);
    ParseWritten(roles, style, e, c, q, fields[0], [c] + after);
    ParseSeparator(roles, c, after);
    PrependFirst(fields[0], Parse(roles, after, false).fields, rest.error);
    if |fields| == 1 {
      assert [fields[0]] == fields;
    } else {
      ParseThenRest(roles, style, e, c, q, fields[1..], tail);
      assert [fields[0]] + fields[1..] == fields;
      assert [fields[0]] + (fields[1..] + rest.fields) == fields + rest.fields;
    }
  }

  lemma ParseEncoded(roles: Roles, style: Style, e: char, c: char, q: char, fields: seq<string>)
    requires ProperRoles(roles, e, c, q) && !MustEscape(roles, style, 'n') && |fields| > 0
    ensures Parse(roles, Encode(roles, style, e, c, q, fields), false) == Parsed(fields, None)
  {
    hide Written, Parse, ProperRoles, MustEscape;
    var k := |fields| - 1;
    var last := Written(roles, style, e, q, fields[k]);
    ParseWritten(roles, style, e, c, q, fields[k], "");
    ParseEnd(roles);
    assert last + "" == last && fields[k] + "" == fields[k];
    if k > 0 {
      EncodeSplit(roles, style, e, c, q, fields[..k], fields[k]);
      assert fields[..k] + [fields[k]] == fields;
      ParseThenRest(roles, style, e, c, q, fields[..k], last);
    } else {
      assert [fields[0]] == fields;
    }
  }

  lemma {:induction false} EncodeSplit(roles: Roles, style: Style, e: char, c: char, q: char, front: seq<string>,
                                       last: string)
    requires |front| > 0
    ensures Encode(roles, style, e, c, q, front + [last])
         == Encode(roles, style, e, c, q, front) + [c] + Written(roles, style, e, q, last)
    decreases |front|
  {
    hide Written;
    var all := front + [last];
    assert all[1..] == front[1..] + [last];
    if |front| == 1 {
      assert all[1..] == [last];
    } else {
      EncodeSplit(roles, style, e, c, q, front[1..], last);
    }
  }

  /** An 'n' that must be escaped is read back as a line break. */
  lemma NIsLost(roles: Roles, style: Style, e: char, c: char, q: char)
    requires ProperRoles(roles, e, c, q) && MustEscape(roles, style, 'n')
    ensures Parse(roles, Encode(roles, style, e, c, q, ["n"]), false) == Parsed(["\n"], None)
  {
    assert EscapeAll(roles, style, e, "n") == [e, 'n'] + EscapeAll(roles, style, e, "") == [e, 'n'];
    var text := Encode(roles, style, e, c, q, ["n"]);
    assert ['\n'] + "" == "\n";
    if style == Bare {
      assert text == [e, 'n'] && text[2..] == "";
    } else {
      assert text == [q, e, 'n', q];
      assert text[1..] == [e, 'n', q] && text[1..][2..] == [q] && [q][1..] == "";
      assert Parse(roles, [q], true) == Parsed([""], None);
    }
  }

  ghost predicate RoundTrips(roles: Roles, style: Style, e: char, c: char, q: char) {
    forall fields: seq<string> :: |fields| > 0 ==>
      Parse(roles, Encode(roles, style, e, c, q, fields), false) == Parsed(fields, None)
  }

  /** In each style every list of fields survives, empty and trailing ones included, exactly
      when that style need not escape an n. */
  lemma {:induction false} RoundTripExact(roles: Roles, style: Style, e: char, c: char, q: char)
    requires ProperRoles(roles, e, c, q)
    ensures RoundTrips(roles, style, e, c, q) <==> !MustEscape(roles, style, 'n')
  {
    hide Parse, Encode;
    if MustEscape(roles, style, 'n') {
      NIsLost(roles, style, e, c, q);
      assert ["n"][0] != ["\n"][0];
    } else {
      forall fields: seq<string> | |fields| > 0
        ensures Parse(roles, Encode(roles, style, e, c, q, fields), false) == Parsed(fields, None)
      {
        ParseEncoded(roles, style, e, c, q, fields);
      }
    }
  }

  /** A token_iterator over the encoded text; an empty text, which only the one blank field
      written bare has, yields nothing. */
  method RoundTrip(roles: Roles, style: Style, e: char, c: char, q: char, fields: seq<string>) returns (result: Parsed)
    requires ProperRoles(roles, e, c, q) && !MustEscape(roles, style, 'n') && |fields| > 0
    ensures result == if style == Bare && fields == [""] then Parsed([], None) else Parsed(fields, None)
  {
    ParseEncoded(roles, style, e, c, q, fields);
    NonEmptyText(roles, style, e, c, q, fields);
    var f := new EscapedListSeparator(roles);
    result := f.Tokenize(Encode(roles, style, e, c, q, fields));
  }

  lemma NonEmptyText(roles: Roles, style: Style, e: char, c: char, q: char, fields: seq<string>)
    requires |fields| > 0
    ensures Encode(roles, style, e, c, q, fields) == "" <==> style == Bare && fields == [""]
  {
    if |fields| == 1 {
      assert fields == [fields[0]];
    }
  }
}
