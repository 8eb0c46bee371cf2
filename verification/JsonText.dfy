/** JSON strings and numbers as text: printing, parsing, and the way back. */
module JsonText {
  import opened Basics

  /** A byte of a C string before its terminator. */
  type TextByte = x: int | 1 <= x < 256 witness 1

  type Text = seq<TextByte>

  const TAB := 9
  const NEWLINE := 10
  const QUOTE := 34
  const COMMA := 44
  const MINUS := 45
  const DOT := 46
  const ZERO := 48
  const COLON := 58
  const BACKSLASH := 92
  const LOWER_U := 117

  const INT_MAX := 0x7fff_ffff

  /** The byte at a place, the terminator at the end. */
  function At(s: Text, i: nat): int
  {
    if i < |s| then s[i] else 0
  }

  /** Past blanks and control characters. */
  function Skip(s: Text): (r: Text)
    ensures |r| <= |s|
  {
    if s != [] && s[0] <= 32 then Skip(s[1..]) else s
  }

  // ----------------------------------------------------------------- strings

  function HexDigit(d: int): TextByte
    requires 0 <= d < 16
  {
    if d < 10 then ZERO + d else 97 + (d - 10)
  }

  /** The letter that stands for a control character, a quote or a backslash; 0 where a hex form is used. */
  function Letter(b: TextByte): int
  {
    if b == BACKSLASH || b == QUOTE then b as int
    else if b == 8 then 98 else if b == 12 then 102 else if b == 10 then 110 else if b == 13 then 114
    else if b == 9 then 116 else 0
  }

  function EscapeByte(b: TextByte): Text
  {
    if b > 31 && b != QUOTE && b != BACKSLASH then [b]
    else if Letter(b) != 0 then [BACKSLASH, Letter(b)]
    else [BACKSLASH, LOWER_U, HexDigit(0), HexDigit(0), HexDigit(b / 16), HexDigit(b % 16)]
  }

  function Escape(s: Text): Text
  {
    if s == [] then [] else EscapeByte(s[0]) + Escape(s[1..])
  }

  function Quoted(s: Text): Text
  {
    [QUOTE] + Escape(s) + [QUOTE]
  }

  function HexValue(c: int): Option<nat>
  {
    if 48 <= c <= 57 then Some(c - 48)
    else if 65 <= c <= 70 then Some(10 + c - 65)
    else if 97 <= c <= 102 then Some(10 + c - 97)
    else None
  }

  /** parse_hex4: 0 if one of four is not a hex digit. */
  function Hex4(s: Text, i: nat): (h: nat)
    ensures h < 0x10000
  {
    var a, b, c, d := HexValue(At(s, i)), HexValue(At(s, i + 1)), HexValue(At(s, i + 2)), HexValue(At(s, i + 3));
    if a.None? || b.None? || c.None? || d.None? then 0
    else
      HexRange(At(s, i)); HexRange(At(s, i + 1)); HexRange(At(s, i + 2)); HexRange(At(s, i + 3));
      ((a.value * 16 + b.value) * 16 + c.value) * 16 + d.value
  }

  lemma HexRange(c: int)
    ensures HexValue(c).Some? ==> HexValue(c).value < 16
  {
  }

  /** UTF-8, by the number of bytes the code point takes. */
  function Utf8(uc: nat): Text
    requires 0 < uc < 0x11_0000
  {
    if uc < 0x80 then [uc]
    else if uc < 0x800 then [0xC0 + uc / 64, 0x80 + uc % 64]
    else if uc < 0x1_0000 then [0xE0 + uc / 4096, 0x80 + uc / 64 % 64, 0x80 + uc % 64]
    else [0xF0 + uc / 262144, 0x80 + uc / 4096 % 64, 0x80 + uc / 64 % 64, 0x80 + uc % 64]
  }

  /** The bytes that the escape at the front of s stands for, and its length after the backslash. An
      escape that runs past the end of the text has no meaning. */
  function Unescape(s: Text): (r: Option<(Text, nat)>)
    ensures r.Some? ==> 1 <= r.value.1 <= |s|
  {
    if s == [] then None
    else if s[0] == 98 then Some(([8], 1))
    else if s[0] == 102 then Some(([12], 1))
    else if s[0] == 110 then Some(([10], 1))
    else if s[0] == 114 then Some(([13], 1))
    else if s[0] == 116 then Some(([9], 1))
    else if s[0] != LOWER_U then Some(([s[0]], 1))
    else if |s| < 5 then None
    else
      var uc := Hex4(s, 1);
      if uc == 0 || 0xDC00 <= uc <= 0xDFFF then Some(([], 5))
      else if 0xD800 <= uc <= 0xDBFF then
        if At(s, 5) != BACKSLASH || At(s, 6) != LOWER_U then Some(([], 5))
        else if |s| < 11 then None
        else
          var uc2 := Hex4(s, 7);
          if 0xDC00 <= uc2 <= 0xDFFF then Some((Utf8(0x1_0000 + uc % 1024 * 1024 + uc2 % 1024), 11)) else Some(([], 11))
      else Some((Utf8(uc), 5))
  }

  /** The body of a string, up to its closing quote or the end of the text; what follows either. */
  function Body(s: Text): (r: Option<(Text, Text)>)
    ensures r.Some? ==> |r.value.1| <= |s|
  {
    if s == [] then Some(([], []))
    else if s[0] == QUOTE then Some(([], s[1..]))
    else if s[0] != BACKSLASH then
      var r := Body(s[1..]);
      if r.None? then None else Some(([s[0]] + r.value.0, r.value.1))
    else
      var e := Unescape(s[1..]);
      if e.None? then None
      else
        var r := Body(s[1 + e.value.1..]);
        if r.None? then None else Some((e.value.0 + r.value.0, r.value.1))
  }

  function ParseString(s: Text): (r: Option<(Text, Text)>)
    ensures r.Some? ==> |r.value.1| < |s|
  {
    if s == [] || s[0] != QUOTE then None else Body(s[1..])
  }

  /** Escapes mean what they were printed for, the hex form of every other control character included. */
  lemma UnescapeEscape(b: TextByte, rest: Text)
    requires EscapeByte(b)[0] == BACKSLASH
    ensures var e := EscapeByte(b)[1..]; Unescape(e + rest) == Some(([b], |e|))
  {
    if Letter(b) == 0 {
      var e := EscapeByte(b)[1..];
      var s := e + rest;
      assert s[0] == LOWER_U && At(s, 1) == ZERO && At(s, 2) == ZERO;
      assert At(s, 3) == HexDigit(b / 16) as int && At(s, 4) == HexDigit(b % 16) as int;
      assert HexValue(HexDigit(b / 16)) == Some(b / 16) && HexValue(HexDigit(b % 16)) == Some(b % 16);
      assert Hex4(s, 1) == b as int;
    }
  }

  lemma BodyStep(s: Text, bytes: Text, n: nat, x: Text, y: Text)
    requires s != [] && s[0] == BACKSLASH && Unescape(s[1..]) == Some((bytes, n))
    requires 1 + n <= |s| && Body(s[1 + n..]) == Some((x, y))
    ensures Body(s) == Some((bytes + x, y))
  {
  }

  lemma BodyEscapeByte(b: TextByte, tail: Text, x: Text, y: Text)
    requires Body(tail) == Some((x, y))
    ensures Body(EscapeByte(b) + tail) == Some(([b] + x, y))
  {
    var s := EscapeByte(b) + tail;
    if EscapeByte(b)[0] == BACKSLASH {
      UnescapeEscape(b, tail);
      var e := EscapeByte(b)[1..];
      assert s[1..] == e + tail && s[1 + |e|..] == tail;
      BodyStep(s, [b], |e|, x, y);
    } else {
      assert s[1..] == tail;
    }
  }

  lemma EscapeStep(str: Text, rest: Text)
    ensures str == [] ==> Escape(str) + rest == rest
    ensures str != [] ==> Escape(str) + rest == EscapeByte(str[0]) + (Escape(str[1..]) + rest)
  {
    hide EscapeByte;
  }

  lemma BodyQuote(rest: Text)
    ensures Body([QUOTE] + rest) == Some(([], rest))
  {
    assert ([QUOTE] + rest)[1..] == rest;
  }

  lemma {:induction false} BodyEscape(str: Text, rest: Text)
    ensures Body(Escape(str) + [QUOTE] + rest) == Some((str, rest))
  {
    hide Body, EscapeByte, Escape;
    EscapeStep(str, [QUOTE] + rest);
    assert Escape(str) + [QUOTE] + rest == Escape(str) + ([QUOTE] + rest);
    if str == [] {
      BodyQuote(rest);
    } else {
      var tail := Escape(str[1..]) + ([QUOTE] + rest);
      BodyEscape(str[1..], rest);
      assert tail == Escape(str[1..]) + [QUOTE] + rest;
      BodyEscapeByte(str[0], tail, str[1..], rest);
      assert [str[0]] + str[1..] == str;
    }
  }

  /** A printed string parses to the same bytes. */
  lemma StringRoundTrip(str: Text, rest: Text)
    ensures ParseString(Quoted(str) + rest) == Some((str, rest))
  {
    BodyEscape(str, rest);
    assert (Quoted(str) + rest)[1..] == Escape(str) + [QUOTE] + rest;
  }

  predicate Plain(b: TextByte)
  {
    b > 31 && b != QUOTE && b != BACKSLASH
  }

  lemma {:induction false} EscapePlain(s: Text)
    requires forall i :: 0 <= i < |s| ==> Plain(s[i])
    ensures Escape(s) == s
  {
    if s != [] {
      assert Plain(s[0]);
      EscapePlain(s[1..]);
    }
  }

  lemma {:induction false} EscapeAppend(s: Text, b: TextByte)
    ensures Escape(s + [b]) == Escape(s) + EscapeByte(b)
  {
    if s != [] {
      EscapeAppend(s[1..], b);
      assert (s + [b])[1..] == s[1..] + [b];
    } else {
      assert (s + [b])[1..] == [];
    }
  }

  /** print_string_ptr: strings with nothing to escape are copied whole. */
  method PrintString(str: Text) returns (out: Text)
    ensures out == Quoted(str)
  {
    var flag := false;
    for i := 0 to |str|
      invariant !flag ==> forall k :: 0 <= k < i ==> Plain(str[k])
    {
      flag := flag || !Plain(str[i]);
    }
    if !flag {
      EscapePlain(str);
      return [QUOTE] + str + [QUOTE];
    }
    out := PrintEscaped(str);
  }

  /** The second pass, with escapes. */
  method PrintEscaped(str: Text) returns (out: Text)
    ensures out == Quoted(str)
  {
    hide EscapeByte, Escape;
    out := [QUOTE];
    EscapeNone();
    for i := 0 to |str|
      invariant out == [QUOTE] + Escape(str[..i])
    {
      EscapeAppend(str[..i], str[i]);
      assert str[..i] + [str[i]] == str[..i + 1];
      assert [QUOTE] + Escape(str[..i]) + EscapeByte(str[i]) == [QUOTE] + (Escape(str[..i]) + EscapeByte(str[i]));
      out := out + EscapeByte(str[i]);
    }
    assert str[..|str|] == str;
    out := out + [QUOTE];
  }

  lemma EscapeNone()
    ensures Escape([]) == []
  {
  }

  /** A string body read so far, put before the rest of it. */
  function Before(out: Text, r: Option<(Text, Text)>): Option<(Text, Text)>
  {
    if r.None? then None else Some((out + r.value.0, r.value.1))
  }

  /** parse_string, reading from place to place and writing the bytes meant. */
  method ReadString(s: Text) returns (r: Option<(Text, Text)>)
    ensures r == ParseString(s)
  {
    if s == [] || s[0] != QUOTE {
      return None;
    }
    hide Next, Body, Before;
    var i, out, ok := 1, [], true;
    BeforeNone(Body(s[1..]));
    while ok && i < |s| && s[i] != QUOTE
      invariant 1 <= i <= |s| && Body(s[1..]) == if ok then Before(out, Body(s[i..])) else None
      decreases ok, |s| - i
    {
      BodyNext(s, i, out);
      var e := Next(s, i);
      ok := e.Some?;
      if ok {
        out := out + e.value.0;
        i := i + e.value.1;
      }
    }
    if !ok {
      return None;
    }
    BodyEnd(s, i, out);
    r := Some((out, if i < |s| then s[i + 1..] else []));
  }

  /** The bytes meant by the next character or escape, and its length. */
  function Next(s: Text, i: nat): (r: Option<(Text, nat)>)
    requires i < |s|
    ensures r.Some? ==> 0 < r.value.1 <= |s| - i
  {
    if s[i] != BACKSLASH then Some(([s[i]], 1))
    else
      var e := Unescape(s[i + 1..]);
      if e.None? then None else Some((e.value.0, 1 + e.value.1))
  }

  lemma BodyNext(s: Text, i: nat, out: Text)
    requires i < |s| && s[i] != QUOTE
    ensures var e := Next(s, i);
      Before(out, Body(s[i..])) == if e.None? then None else Before(out + e.value.0, Body(s[i + e.value.1..]))
  {
    hide Unescape, Body, Before;
    if s[i] != BACKSLASH {
      BodyPlain(s, i, out);
    } else {
      BodyEscaped(s, i, out);
    }
  }

  lemma BeforeNone(r: Option<(Text, Text)>)
    ensures Before([], r) == r
  {
    assert r.Some? ==> [] + r.value.0 == r.value.0;
  }

  lemma BodyPlain(s: Text, i: nat, out: Text)
    requires i < |s| && s[i] != QUOTE && s[i] != BACKSLASH
    ensures Before(out, Body(s[i..])) == Before(out + [s[i]], Body(s[i + 1..]))
  {
    assert s[i..][1..] == s[i + 1..];
    var r := Body(s[i + 1..]);
    assert r.Some? ==> out + ([s[i]] + r.value.0) == out + [s[i]] + r.value.0;
  }

  lemma BodyEscaped(s: Text, i: nat, out: Text)
    requires i < |s| && s[i] == BACKSLASH
    ensures var e := Unescape(s[i + 1..]);
      Before(out, Body(s[i..])) ==
        if e.None? then None else Before(out + e.value.0, Body(s[i + 1 + e.value.1..]))
  {
    hide Unescape;
    assert s[i..][1..] == s[i + 1..];
    var e := Unescape(s[i + 1..]);
    if e.Some? {
      assert s[i..][1 + e.value.1..] == s[i + 1 + e.value.1..];
      var r := Body(s[i + 1 + e.value.1..]);
      assert r.Some? ==> out + (e.value.0 + r.value.0) == out + e.value.0 + r.value.0;
    }
  }

  lemma BodyEnd(s: Text, i: nat, out: Text)
    requires i <= |s| && (i < |s| ==> s[i] == QUOTE)
    ensures Before(out, Body(s[i..])) == Some((out, if i < |s| then s[i + 1..] else []))
  {
    assert out + [] == out;
    if i < |s| {
      assert s[i..][1..] == s[i + 1..];
    }
  }

  // ----------------------------------------------------------------- numbers

  function Digits(n: nat): (t: Text)
    ensures t != []
  {
    if n < 10 then [ZERO + n] else Digits(n / 10) + [ZERO + n % 10]
  }

  function PrintInt(n: int): Text
  {
    if n < 0 then [MINUS] + Digits(-n) else Digits(n)
  }

  predicate IsDigit(c: int)
  {
    48 <= c <= 57
  }

  /** Digits from the front of s, appended to the decimal n; how many there were; what follows. */
  function TakeDigits(s: Text, n: nat): (r: (nat, nat, Text))
    ensures |s| == r.1 + |r.2|
    decreases |s|
  {
    if s != [] && IsDigit(s[0]) then
      var (m, k, rest) := TakeDigits(s[1..], n * 10 + (s[0] as int - 48));
      (m, k + 1, rest)
    else (n, 0, s)
  }

  function Pow10(k: int): real
    decreases if k < 0 then -k else k
  {
    if k == 0 then 1.0 else if k > 0 then 10.0 * Pow10(k - 1) else Pow10(k + 1) / 10.0
  }

  /** The exponent at the front of s, if there is one. */
  function Exponent(s: Text): (r: (int, Text))
    ensures |r.1| <= |s|
  {
    if At(s, 0) != 101 && At(s, 0) != 69 then (0, s)
    else if At(s, 1) == 43 then var (m, _, rest) := TakeDigits(s[2..], 0); (m, rest)
    else if At(s, 1) == MINUS then var (m, _, rest) := TakeDigits(s[2..], 0); (-(m as int), rest)
    else var (m, _, rest) := TakeDigits(s[1..], 0); (m, rest)
  }

  /** A zero, digits, a fraction, an exponent, each optional. */
  function ParseUnsigned(s: Text): (r: (real, Text))
    ensures |r.1| <= |s|
    ensures s != [] && IsDigit(s[0]) ==> |r.1| < |s|
  {
    var s2 := if At(s, 0) == ZERO then s[1..] else s;
    var (n, _, s3) := if IsDigit(At(s2, 0)) && At(s2, 0) != ZERO then TakeDigits(s2, 0) else (0, 0, s2);
    var (m, k, s4) := if At(s3, 0) == DOT && IsDigit(At(s3, 1)) then TakeDigits(s3[1..], n) else (n, 0, s3);
    var (e, s5) := Exponent(s4);
    (m as real * Pow10(e - k), s5)
  }

  /** parse_number, on exact reals. */
  function ParseNumber(s: Text): (r: (real, Text))
    ensures |r.1| <= |s|
    ensures s != [] && (s[0] == MINUS || IsDigit(s[0])) ==> |r.1| < |s|
  {
    if At(s, 0) == MINUS then
      var (d, rest) := ParseUnsigned(s[1..]);
      (-d, rest)
    else ParseUnsigned(s)
  }

  /** What can follow a number without being read as part of it. */
  predicate EndsNumber(s: Text)
  {
    s == [] || !(IsDigit(s[0]) || s[0] == DOT || s[0] == 101 || s[0] == 69)
  }

  ghost predicate AllDigits(a: Text)
  {
    forall i :: 0 <= i < |a| ==> IsDigit(a[i])
  }

  function Fold(a: Text, acc: int): int
  {
    if a == [] then acc else Fold(a[1..], acc * 10 + (a[0] as int - 48))
  }

  lemma {:induction false} FoldAppend(a: Text, d: TextByte, acc: int)
    ensures Fold(a + [d], acc) == Fold(a, acc) * 10 + (d as int - 48)
  {
    if a != [] {
      FoldAppend(a[1..], d, acc * 10 + (a[0] as int - 48));
      assert (a + [d])[1..] == a[1..] + [d];
    } else {
      assert a + [d] == [d];
    }
  }

  lemma {:induction false} DigitsFold(n: nat)
    ensures AllDigits(Digits(n)) && Fold(Digits(n), 0) == n && (n > 0 ==> Digits(n)[0] != ZERO)
  {
    if n >= 10 {
      DigitsFold(n / 10);
      FoldAppend(Digits(n / 10), ZERO + n % 10, 0);
    }
  }

  lemma {:induction false} TakeDigitsFold(a: Text, rest: Text, acc: nat)
    requires AllDigits(a) && (rest == [] || !IsDigit(rest[0]))
    ensures TakeDigits(a + rest, acc) == (Fold(a, acc), |a|, rest)
    decreases |a|
  {
    if a == [] {
      assert a + rest == rest;
    } else {
      assert IsDigit(a[0]);
      TakeDigitsFold(a[1..], rest, acc * 10 + (a[0] as int - 48));
      assert (a + rest)[1..] == a[1..] + rest;
    }
  }

  lemma DigitsRoundTrip(n: nat, rest: Text)
    requires EndsNumber(rest)
    ensures ParseUnsigned(Digits(n) + rest) == (n as real, rest)
    ensures IsDigit(Digits(n)[0])
  {
    DigitsFold(n);
    TakeDigitsFold(Digits(n), rest, 0);
    hide Digits, TakeDigits, Fold;
    var s := Digits(n) + rest;
    if n == 0 {
      ZeroDigit();
      assert s[1..] == rest;
    }
  }

  lemma ZeroDigit()
    ensures Digits(0) == [ZERO]
  {
  }

  /** A printed integer parses to the same number. */
  lemma IntRoundTrip(n: int, rest: Text)
    requires EndsNumber(rest)
    ensures ParseNumber(PrintInt(n) + rest) == (n as real, rest)
  {
    hide Digits, ParseUnsigned;
    if n < 0 {
      DigitsRoundTrip(-n, rest);
      assert (PrintInt(n) + rest)[1..] == Digits(-n) + rest;
    } else {
      DigitsRoundTrip(n, rest);
    }
  }
}
