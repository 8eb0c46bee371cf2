/** JSON trees as text. */
module Json {
  import opened Basics
  import opened JsonText

  datatype Json =
    | Null | False | True
    | Number(d: real)
    | String(s: Text)
    | Array(items: seq<Json>)
    | Object(members: seq<Member>)

  datatype Member = Member(name: Text, value: Json)

  const NULL_TEXT: Text := [110, 117, 108, 108]
  const FALSE_TEXT: Text := [102, 97, 108, 115, 101]
  const TRUE_TEXT: Text := [116, 114, 117, 101]

  const OPEN_ARRAY := 91
  const CLOSE_ARRAY := 93
  const OPEN_OBJECT := 123
  const CLOSE_OBJECT := 125

  // ----------------------------------------------------------------- printing

  /** A number that prints as an int. */
  predicate IsInt(d: real)
  {
    d == d.Floor as real && -INT_MAX - 1 <= d.Floor <= INT_MAX
  }

  /** Trees whose numbers are all ints. */
  ghost predicate Printable(t: Json)
    decreases t
  {
    match t
    case Number(d) => IsInt(d)
    case Array(items) => forall i :: 0 <= i < |items| ==> Printable(items[i])
    case Object(members) => forall i :: 0 <= i < |members| ==> Printable(members[i].value)
    case _ => true
  }

  function Indent(n: nat, fmt: bool): Text
  {
    if n == 0 || !fmt then [] else [TAB] + Indent(n - 1, fmt)
  }

  function Break(fmt: bool): Text
  {
    if fmt then [NEWLINE] else []
  }

  function Print(t: Json, depth: nat, fmt: bool): Text
    decreases t
  {
    match t
    case Null => NULL_TEXT
    case False => FALSE_TEXT
    case True => TRUE_TEXT
    case Number(d) => PrintInt(d.Floor)
    case String(s) => Quoted(s)
    case Array(items) => [OPEN_ARRAY] + PrintItems(items, depth + 1, fmt) + [CLOSE_ARRAY]
    case Object(members) =>
      [OPEN_OBJECT] + Break(fmt) + PrintMembers(members, depth + 1, fmt) + Indent(depth, fmt) + [CLOSE_OBJECT]
  }

  function Separator(fmt: bool): Text
  {
    if fmt then [COMMA, 32] else [COMMA]
  }

  function PrintItems(items: seq<Json>, depth: nat, fmt: bool): Text
    decreases items
  {
    if items == [] then []
    else if |items| == 1 then Print(items[0], depth, fmt)
    else Print(items[0], depth, fmt) + Separator(fmt) + PrintItems(items[1..], depth, fmt)
  }

  function PrintMember(m: Member, depth: nat, fmt: bool): Text
    decreases m
  {
    Indent(depth, fmt) + Quoted(m.name) + [COLON] + (if fmt then [TAB] else []) + Print(m.value, depth, fmt)
  }

  function PrintMembers(members: seq<Member>, depth: nat, fmt: bool): Text
    decreases members
  {
    if members == [] then []
    else
      PrintMember(members[0], depth, fmt) + (if |members| > 1 then [COMMA] else []) + Break(fmt) +
      PrintMembers(members[1..], depth, fmt)
  }

  // ------------------------------------------------------------------ parsing

  function Parse(s: Text): (r: Option<(Json, Text)>)
    ensures r.Some? ==> |r.value.1| < |s|
    decreases |s|, 1
  {
    if NULL_TEXT <= s then Some((Null, s[4..]))
    else if FALSE_TEXT <= s then Some((False, s[5..]))
    else if TRUE_TEXT <= s then Some((True, s[4..]))
    else if s == [] then None
    else if s[0] == QUOTE then
      var r := ParseString(s);
      if r.None? then None else Some((String(r.value.0), r.value.1))
    else if s[0] == MINUS || IsDigit(s[0]) then
      var (d, rest) := ParseNumber(s);
      Some((Number(d), rest))
    else if s[0] == OPEN_ARRAY then ParseArray(s)
    else if s[0] == OPEN_OBJECT then ParseObject(s)
    else None
  }

  function ParseArray(s: Text): (r: Option<(Json, Text)>)
    requires s != []
    ensures r.Some? ==> |r.value.1| < |s|
    decreases |s|, 0
  {
    var v := Skip(s[1..]);
    if At(v, 0) == CLOSE_ARRAY then Some((Array([]), v[1..]))
    else
      var r := ParseItems(v);
      if r.None? then None else Some((Array(r.value.0), r.value.1))
  }

  /** Values with commas between them, up to the closing bracket. */
  function ParseItems(s: Text): (r: Option<(seq<Json>, Text)>)
    ensures r.Some? ==> |r.value.1| < |s|
    decreases |s|, 2
  {
    var first := Parse(Skip(s));
    if first.None? then None
    else
      var v := Skip(first.value.1);
      if At(v, 0) == COMMA then
        var r := ParseItems(v[1..]);
        if r.None? then None else Some(([first.value.0] + r.value.0, r.value.1))
      else if At(v, 0) == CLOSE_ARRAY then Some(([first.value.0], v[1..]))
      else None
  }

  function ParseObject(s: Text): (r: Option<(Json, Text)>)
    requires s != []
    ensures r.Some? ==> |r.value.1| < |s|
    decreases |s|, 0
  {
    var v := Skip(s[1..]);
    if At(v, 0) == CLOSE_OBJECT then Some((Object([]), v[1..]))
    else
      var r := ParseMembers(v);
      if r.None? then None else Some((Object(r.value.0), r.value.1))
  }

  /** A name, a colon, a value. */
  function ParseMember(s: Text): (r: Option<(Member, Text)>)
    ensures r.Some? ==> |r.value.1| < |s|
    decreases |s|, 2
  {
    var name := ParseString(Skip(s));
    if name.None? then None
    else
      var v := Skip(name.value.1);
      if At(v, 0) != COLON then None
      else
        var value := Parse(Skip(v[1..]));
        if value.None? then None else Some((Member(name.value.0, value.value.0), value.value.1))
  }

  function ParseMembers(s: Text): (r: Option<(seq<Member>, Text)>)
    ensures r.Some? ==> |r.value.1| < |s|
    decreases |s|, 3
  {
    var first := ParseMember(s);
    if first.None? then None
    else
      var v := Skip(first.value.1);
      if At(v, 0) == COMMA then
        var r := ParseMembers(v[1..]);
        if r.None? then None else Some(([first.value.0] + r.value.0, r.value.1))
      else if At(v, 0) == CLOSE_OBJECT then Some(([first.value.0], v[1..]))
      else None
  }

  /** cJSON_Parse. */
  function ParseDocument(s: Text): Option<Json>
  {
    var r := Parse(Skip(s));
    if r.None? then None else Some(r.value.0)
  }

  // --------------------------------------------------------------- round trip

  ghost predicate Blank(s: Text)
  {
    forall i :: 0 <= i < |s| ==> s[i] <= 32
  }

  lemma {:induction false} SkipBlank(gap: Text, s: Text)
    requires Blank(gap) && s != [] && s[0] > 32
    ensures Skip(gap + s) == s
  {
    if gap == [] {
      assert gap + s == s;
    } else {
      SkipBlank(gap[1..], s);
      assert (gap + s)[1..] == gap[1..] + s;
    }
  }

  lemma {:induction false} SkipTwice(s: Text)
    ensures Skip(Skip(s)) == Skip(s)
  {
    if s != [] && s[0] <= 32 {
      SkipTwice(s[1..]);
    }
  }

  lemma {:induction false} IndentBlank(n: nat, fmt: bool)
    ensures Blank(Indent(n, fmt))
  {
    if n != 0 && fmt {
      IndentBlank(n - 1, fmt);
    }
  }

  /** A printed value starts with a byte that is no blank and closes nothing. */
  lemma PrintFirst(t: Json, depth: nat, fmt: bool)
    ensures Print(t, depth, fmt) != [] && Print(t, depth, fmt)[0] > 32
    ensures Print(t, depth, fmt)[0] != CLOSE_ARRAY
  {
    if t.Number? {
      var n := t.d.Floor;
      DigitsFold(if n < 0 then -n else n);
      hide Digits, Fold;
      assert IsDigit(Digits(if n < 0 then -n else n)[0]);
    }
  }

  lemma ParseKind(s: Text)
    requires s != [] && s[0] != 110 && s[0] != 102 && s[0] != 116
    ensures s[0] == QUOTE && ParseString(s).Some? ==>
      Parse(s) == Some((String(ParseString(s).value.0), ParseString(s).value.1))
    ensures s[0] == MINUS || IsDigit(s[0]) ==> Parse(s) == Some((Number(ParseNumber(s).0), ParseNumber(s).1))
    ensures s[0] == OPEN_ARRAY ==> Parse(s) == ParseArray(s)
    ensures s[0] == OPEN_OBJECT ==> Parse(s) == ParseObject(s)
  {
    hide ParseString, ParseNumber, ParseArray, ParseObject;
    assert NULL_TEXT[0] == 110 && FALSE_TEXT[0] == 102 && TRUE_TEXT[0] == 116;
  }

  lemma WordsRoundTrip(rest: Text)
    ensures Parse(NULL_TEXT + rest) == Some((Null, rest))
    ensures Parse(FALSE_TEXT + rest) == Some((False, rest))
    ensures Parse(TRUE_TEXT + rest) == Some((True, rest))
  {
    assert (NULL_TEXT + rest)[4..] == rest && (FALSE_TEXT + rest)[5..] == rest && (TRUE_TEXT + rest)[4..] == rest;
    assert !(NULL_TEXT <= FALSE_TEXT + rest) by {
      assert NULL_TEXT[0] != (FALSE_TEXT + rest)[0];
    }
    assert !(NULL_TEXT <= TRUE_TEXT + rest) && !(FALSE_TEXT <= TRUE_TEXT + rest) by {
      assert NULL_TEXT[0] != (TRUE_TEXT + rest)[0] && FALSE_TEXT[0] != (TRUE_TEXT + rest)[0];
    }
  }

  lemma NumberRoundTrip(d: real, rest: Text)
    requires IsInt(d) && EndsNumber(rest)
    ensures Parse(PrintInt(d.Floor) + rest) == Some((Number(d), rest))
  {
    var n := d.Floor;
    var s := PrintInt(n) + rest;
    IntRoundTrip(n, rest);
    DigitsFold(if n < 0 then -n else n);
    hide Digits, Fold, ParseNumber, Parse;
    assert IsDigit(Digits(if n < 0 then -n else n)[0]);
    ParseKind(s);
  }

  lemma StringValueRoundTrip(str: Text, rest: Text)
    ensures Parse(Quoted(str) + rest) == Some((String(str), rest))
  {
    hide Escape, ParseString, Parse;
    StringRoundTrip(str, rest);
    ParseKind(Quoted(str) + rest);
  }

  /** Parsing a printed tree gives the tree back, and stops right after it. */
  lemma {:induction false} RoundTrip(t: Json, depth: nat, fmt: bool, rest: Text)
    requires Printable(t) && EndsNumber(rest)
    ensures Parse(Print(t, depth, fmt) + rest) == Some((t, rest))
    decreases t
  {
    hide Parse, PrintItems, PrintMembers, PrintInt, Quoted;
    match t
    case Null => WordsRoundTrip(rest);
    case False => WordsRoundTrip(rest);
    case True => WordsRoundTrip(rest);
    case Number(d) => NumberRoundTrip(d, rest);
    case String(s) => StringValueRoundTrip(s, rest);
    case Array(items) => ArrayRoundTrip(items, depth, fmt, rest);
    case Object(members) => ObjectRoundTrip(members, depth, fmt, rest);
  }

  lemma {:induction false} ArrayRoundTrip(items: seq<Json>, depth: nat, fmt: bool, rest: Text)
    requires forall i :: 0 <= i < |items| ==> Printable(items[i])
    ensures Parse([OPEN_ARRAY] + PrintItems(items, depth + 1, fmt) + [CLOSE_ARRAY] + rest) == Some((Array(items), rest))
    decreases items, 1
  {
    hide Parse, Print, ParseItems;
    var body := PrintItems(items, depth + 1, fmt) + ([CLOSE_ARRAY] + rest);
    var s := [OPEN_ARRAY] + PrintItems(items, depth + 1, fmt) + [CLOSE_ARRAY] + rest;
    assert s[1..] == body;
    ParseKind(s);
    if items == [] {
      assert body == [CLOSE_ARRAY] + rest && body[1..] == rest;
    } else {
      PrintFirst(items[0], depth + 1, fmt);
      ItemsRoundTrip(items, depth + 1, fmt, rest);
      assert Skip(body) == body;
    }
  }

  lemma ItemsSkip(gap: Text, s: Text)
    requires Blank(gap) && s != [] && s[0] > 32
    ensures ParseItems(gap + s) == ParseItems(s)
  {
    hide Parse;
    SkipBlank(gap, s);
    assert Skip(s) == s;
  }

  lemma PrintItemsFirst(items: seq<Json>, depth: nat, fmt: bool)
    requires items != []
    ensures PrintItems(items, depth, fmt) != [] && PrintItems(items, depth, fmt)[0] > 32
  {
    hide Print;
    PrintFirst(items[0], depth, fmt);
  }

  lemma ItemsOne(s: Text, v: Json, after: Text, rest: Text)
    requires Parse(Skip(s)) == Some((v, after)) && Skip(after) == [CLOSE_ARRAY] + rest
    ensures ParseItems(s) == Some(([v], rest))
  {
    hide Parse;
    assert Skip(after)[1..] == rest;
  }

  lemma ItemsMore(s: Text, v: Json, after: Text, t: Text, vs: seq<Json>, rest: Text)
    requires Parse(Skip(s)) == Some((v, after)) && Skip(after) == [COMMA] + t
    requires ParseItems(t) == Some((vs, rest))
    ensures ParseItems(s) == Some(([v] + vs, rest))
  {
    hide Parse;
    assert Skip(after)[1..] == t;
  }

  lemma SkipSolid(s: Text)
    requires s != [] && s[0] > 32
    ensures Skip(s) == s
  {
  }

  lemma {:induction false} ItemsRoundTrip(items: seq<Json>, depth: nat, fmt: bool, rest: Text)
    requires items != [] && forall i :: 0 <= i < |items| ==> Printable(items[i])
    ensures ParseItems(PrintItems(items, depth, fmt) + ([CLOSE_ARRAY] + rest)) == Some((items, rest))
    decreases items, 0
  {
    hide Parse, Print, Skip, ParseItems, Printable;
    var first, end := Print(items[0], depth, fmt), [CLOSE_ARRAY] + rest;
    PrintFirst(items[0], depth, fmt);
    SkipSolid(end);
    if |items| == 1 {
      RoundTrip(items[0], depth, fmt, end);
      SkipSolid(first + end);
      ItemsOne(first + end, items[0], end, rest);
      assert items == [items[0]];
    } else {
      var more := PrintItems(items[1..], depth, fmt) + end;
      MoreItems(items, depth, fmt, rest, more);
    }
  }

  lemma {:induction false} MoreItems(items: seq<Json>, depth: nat, fmt: bool, rest: Text, more: Text)
    requires |items| > 1 && (forall i :: 0 <= i < |items| ==> Printable(items[i]))
    requires more == PrintItems(items[1..], depth, fmt) + ([CLOSE_ARRAY] + rest)
    ensures ParseItems(PrintItems(items, depth, fmt) + ([CLOSE_ARRAY] + rest)) == Some((items, rest))
    decreases items, -1
  {
    hide Parse, Print, Skip, ParseItems, Printable;
    var first := Print(items[0], depth, fmt);
    var gap := Separator(fmt)[1..];
    var tail := [COMMA] + (gap + more);
    assert PrintItems(items, depth, fmt) + ([CLOSE_ARRAY] + rest) == first + tail;
    hide PrintItems;
    ItemsRoundTrip(items[1..], depth, fmt, rest);
    PrintItemsFirst(items[1..], depth, fmt);
    ItemsSkip(gap, more);
    PrintFirst(items[0], depth, fmt);
    RoundTrip(items[0], depth, fmt, tail);
    SkipSolid(first + tail);
    SkipSolid(tail);
    ItemsMore(first + tail, items[0], tail, gap + more, items[1..], rest);
    assert items == [items[0]] + items[1..];
  }

  lemma MemberIs(s: Text, name: Text, after: Text, t: Text, v: Json, rest: Text)
    requires ParseString(Skip(s)) == Some((name, after)) && Skip(after) == [COLON] + t
    requires Parse(Skip(t)) == Some((v, rest))
    ensures ParseMember(s) == Some((Member(name, v), rest))
  {
    hide Parse, ParseString;
    assert Skip(after)[1..] == t;
  }

  lemma {:induction false} MemberRoundTrip(m: Member, depth: nat, fmt: bool, rest: Text)
    requires Printable(m.value) && EndsNumber(rest)
    ensures ParseMember(PrintMember(m, depth, fmt) + rest) == Some((m, rest))
    decreases m
  {
    hide Parse, Print, Escape, ParseString, Indent, Skip, ParseMember;
    var value := Print(m.value, depth, fmt) + rest;
    var gap: Text := if fmt then [TAB] else [];
    var tail := [COLON] + (gap + value);
    var s := Indent(depth, fmt) + (Quoted(m.name) + tail);
    assert PrintMember(m, depth, fmt) + rest == s;
    hide PrintMember;
    PrintFirst(m.value, depth, fmt);
    RoundTrip(m.value, depth, fmt, rest);
    SkipBlank(gap, value);
    SkipSolid(tail);
    StringRoundTrip(m.name, tail);
    IndentBlank(depth, fmt);
    SkipBlank(Indent(depth, fmt), Quoted(m.name) + tail);
    MemberIs(s, m.name, tail, gap + value, m.value, rest);
  }

  lemma MembersSkip(s: Text)
    ensures ParseMembers(Skip(s)) == ParseMembers(s)
  {
    hide Parse;
    SkipTwice(s);
  }

  lemma MembersOne(s: Text, m: Member, after: Text, rest: Text)
    requires ParseMember(s) == Some((m, after)) && Skip(after) == [CLOSE_OBJECT] + rest
    ensures ParseMembers(s) == Some(([m], rest))
  {
    hide ParseMember;
    assert Skip(after)[1..] == rest;
  }

  lemma MembersMore(s: Text, m: Member, after: Text, t: Text, ms: seq<Member>, rest: Text)
    requires ParseMember(s) == Some((m, after)) && Skip(after) == [COMMA] + t
    requires ParseMembers(t) == Some((ms, rest))
    ensures ParseMembers(s) == Some(([m] + ms, rest))
  {
    hide ParseMember;
    assert Skip(after)[1..] == t;
  }

  lemma PrintMembersOne(m: Member, depth: nat, fmt: bool, end: Text)
    ensures PrintMembers([m], depth, fmt) + end == PrintMember(m, depth, fmt) + (Break(fmt) + end)
  {
    hide PrintMember;
  }

  lemma PrintMembersMore(members: seq<Member>, depth: nat, fmt: bool, end: Text)
    requires |members| > 1
    ensures PrintMembers(members, depth, fmt) + end ==
      PrintMember(members[0], depth, fmt) + ([COMMA] + (Break(fmt) + (PrintMembers(members[1..], depth, fmt) + end)))
  {
    hide PrintMember;
  }

  lemma {:induction false} MembersRoundTrip(members: seq<Member>, depth: nat, fmt: bool, gap: Text, rest: Text)
    requires members != [] && Blank(gap) && forall i :: 0 <= i < |members| ==> Printable(members[i].value)
    ensures ParseMembers(PrintMembers(members, depth, fmt) + (gap + ([CLOSE_OBJECT] + rest))) == Some((members, rest))
    decreases members, 0
  {
    hide PrintMember, ParseMember, PrintMembers, ParseMembers, Skip, Printable;
    var first, end := PrintMember(members[0], depth, fmt), gap + ([CLOSE_OBJECT] + rest);
    if |members| == 1 {
      var after := Break(fmt) + end;
      assert after == (Break(fmt) + gap) + ([CLOSE_OBJECT] + rest);
      MemberRoundTrip(members[0], depth, fmt, after);
      SkipBlank(Break(fmt) + gap, [CLOSE_OBJECT] + rest);
      PrintMembersOne(members[0], depth, fmt, end);
      MembersOne(first + after, members[0], after, rest);
      assert members == [members[0]];
    } else {
      var more := PrintMembers(members[1..], depth, fmt) + end;
      var after := [COMMA] + (Break(fmt) + more);
      MemberRoundTrip(members[0], depth, fmt, after);
      MembersRoundTrip(members[1..], depth, fmt, gap, rest);
      PrintMembersMore(members, depth, fmt, end);
      MembersBreak(fmt, more);
      SkipSolid(after);
      MembersMore(first + after, members[0], after, Break(fmt) + more, members[1..], rest);
      assert members == [members[0]] + members[1..];
    }
  }

  lemma MembersBreak(fmt: bool, s: Text)
    ensures ParseMembers(Break(fmt) + s) == ParseMembers(s)
  {
    hide ParseMembers;
    MembersSkip(s);
    MembersSkip(Break(fmt) + s);
    assert if fmt then (Break(fmt) + s)[1..] == s else Break(fmt) + s == s;
  }

  lemma ObjectIs(s: Text, body: Text, ms: seq<Member>, rest: Text)
    requires s == [OPEN_OBJECT] + body && At(Skip(body), 0) != CLOSE_OBJECT
    requires ParseMembers(body) == Some((ms, rest))
    ensures Parse(s) == Some((Object(ms), rest))
  {
    hide Parse, ParseMembers, Skip;
    ParseKind(s);
    assert s[1..] == body;
    MembersSkip(body);
  }

  lemma EmptyObject(s: Text, gap: Text, rest: Text)
    requires s == [OPEN_OBJECT] + (gap + ([CLOSE_OBJECT] + rest)) && Blank(gap)
    ensures Parse(s) == Some((Object([]), rest))
  {
    hide Parse, ParseMembers;
    ParseKind(s);
    assert s[1..] == gap + ([CLOSE_OBJECT] + rest);
    SkipBlank(gap, [CLOSE_OBJECT] + rest);
    assert ([CLOSE_OBJECT] + rest)[1..] == rest;
  }

  lemma {:induction false} ObjectRoundTrip(members: seq<Member>, depth: nat, fmt: bool, rest: Text)
    requires forall i :: 0 <= i < |members| ==> Printable(members[i].value)
    ensures Parse(Print(Object(members), depth, fmt) + rest) == Some((Object(members), rest))
    decreases members, 1
  {
    hide Parse, PrintMembers, ParseMembers, Indent, Printable, Skip;
    var end := Indent(depth, fmt) + ([CLOSE_OBJECT] + rest);
    var body := PrintMembers(members, depth + 1, fmt) + end;
    var s := Print(Object(members), depth, fmt) + rest;
    assert s == [OPEN_OBJECT] + (Break(fmt) + body);
    hide Print;
    IndentBlank(depth, fmt);
    if members == [] {
      PrintNoMembers(depth + 1, fmt);
      assert Break(fmt) + body == (Break(fmt) + Indent(depth, fmt)) + ([CLOSE_OBJECT] + rest);
      EmptyObject(s, Break(fmt) + Indent(depth, fmt), rest);
    } else {
      MembersRoundTrip(members, depth + 1, fmt, Indent(depth, fmt), rest);
      MembersBreak(fmt, body);
      MembersFirst(members, depth + 1, fmt, Break(fmt), end);
      ObjectIs(s, Break(fmt) + body, members, rest);
    }
  }

  lemma PrintNoMembers(depth: nat, fmt: bool)
    ensures PrintMembers([], depth, fmt) == []
  {
  }

  /** Printed members start with a quote, after blanks. */
  lemma MembersFirst(members: seq<Member>, depth: nat, fmt: bool, gap: Text, end: Text)
    requires members != [] && Blank(gap)
    ensures At(Skip(gap + (PrintMembers(members, depth, fmt) + end)), 0) == QUOTE
  {
    hide Print, Escape, Indent, Skip, PrintMembers, PrintMember;
    var i, first := Indent(depth, fmt), PrintMember(members[0], depth, fmt);
    var p := PrintMembers(members, depth, fmt) + end;
    if |members| == 1 {
      assert members == [members[0]];
      PrintMembersOne(members[0], depth, fmt, end);
    } else {
      PrintMembersMore(members, depth, fmt, end);
    }
    assert first <= p;
    PrintMemberFirst(members[0], depth, fmt);
    IndentBlank(depth, fmt);
    assert gap + p == (gap + i) + p[|i|..];
    SkipBlank(gap + i, p[|i|..]);
  }

  lemma PrintMemberFirst(m: Member, depth: nat, fmt: bool)
    ensures var i := Indent(depth, fmt); var p := PrintMember(m, depth, fmt);
      |p| > |i| && p[..|i|] == i && p[|i|] == QUOTE
  {
    hide Print, Escape, Indent;
  }

  /** Parsing the printed text of a tree of ints, strings, words, arrays and objects, formatted or
      not, returns the tree. */
  lemma DocumentRoundTrip(t: Json, fmt: bool)
    requires Printable(t)
    ensures ParseDocument(Print(t, 0, fmt)) == Some(t)
  {
    hide Print, Parse;
    PrintFirst(t, 0, fmt);
    RoundTrip(t, 0, fmt, []);
    assert Print(t, 0, fmt) + [] == Print(t, 0, fmt);
    assert Skip(Print(t, 0, fmt)) == Print(t, 0, fmt);
  }
}
