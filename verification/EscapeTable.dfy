/** The table of backslash escapes: which text stands for which bytes, in `echo` and in ANSI-C
    quotes, whatever follows. */
module EscapeTable {
  import opened Utf8
  import opened Sequences
  import opened Wrappers
  import opened Escapes = Escape
  import EscapeNumerals

  /** The text is decoded to the bytes, and decoding goes on behind it. */
  ghost predicate Reads(text: string, bytes: seq<byte>, rest: string, mode: Mode) {
    Expand(text + rest, mode) == Prepend(bytes, Expand(rest, mode))
  }

  lemma EscapeReads(text: string, bytes: seq<byte>, rest: string, mode: Mode)
    requires text != "" && Escapes.Escape(text + rest, mode) == Emit(bytes, rest)
    ensures Reads(['\\'] + text, bytes, rest, mode)
  {
    hide Escapes.Escape;
    assert (['\\'] + text + rest)[1..] == text + rest;
  }

  lemma OneLetter(cmd: char, rest: string)
    ensures ([cmd] + rest)[0] == cmd && ([cmd] + rest)[1..] == rest
  {
  }

  // ----- Letters -----

  /** A text without backslashes stands for its UTF-8 bytes. */
  lemma {:induction false} PlainReads(text: string, rest: string, mode: Mode)
    requires '\\' !in text
    ensures Reads(text, Encode(text), rest, mode)
  {
    hide EncodeChar, Escapes.Escape;
    if text == "" {
      assert text + rest == rest;
      PrependNothing(Expand(rest, mode));
    } else {
      PlainReads(text[1..], rest, mode);
      assert (text + rest)[1..] == text[1..] + rest;
      PrependPrepend(EncodeChar(text[0]), Encode(text[1..]), Expand(rest, mode));
    }
  }

  /** The escapes that stand for one byte in both modes. */
  lemma LettersRead(rest: string, mode: Mode)
    ensures Reads(['\\', 'a'], [0x07], rest, mode) && Reads(['\\', 'b'], [0x08], rest, mode)
    ensures Reads(['\\', 'e'], [0x1B], rest, mode) && Reads(['\\', 'E'], [0x1B], rest, mode)
    ensures Reads(['\\', 'f'], [0x0C], rest, mode) && Reads(['\\', 'n'], [0x0A], rest, mode)
    ensures Reads(['\\', 'r'], [0x0D], rest, mode) && Reads(['\\', 't'], [0x09], rest, mode)
    ensures Reads(['\\', 'v'], [0x0B], rest, mode) && Reads(['\\', '\\'], [0x5C], rest, mode)
  {
    LetterReads('a', 0x07, rest, mode);
    LetterReads('b', 0x08, rest, mode);
    LetterReads('e', 0x1B, rest, mode);
    LetterReads('E', 0x1B, rest, mode);
    LetterReads('f', 0x0C, rest, mode);
    LetterReads('n', 0x0A, rest, mode);
    LetterReads('r', 0x0D, rest, mode);
    LetterReads('t', 0x09, rest, mode);
    LetterReads('v', 0x0B, rest, mode);
    LetterReads('\\', 0x5C, rest, mode);
  }

  lemma LetterReads(cmd: char, b: byte, rest: string, mode: Mode)
    requires (cmd, b) in [('a', 0x07), ('b', 0x08), ('e', 0x1B), ('E', 0x1B), ('f', 0x0C), ('n', 0x0A), ('r', 0x0D),
                          ('t', 0x09), ('v', 0x0B), ('\\', 0x5C)]
    ensures Reads(['\\', cmd], [b], rest, mode)
  {
    hide Expand;
    OneLetter(cmd, rest);
    EscapeReads([cmd], [b], rest, mode);
    assert ['\\', cmd] == ['\\'] + [cmd];
  }

  /** Quotes and the question mark are escaped in ANSI-C quotes only; `echo` keeps their
      backslashes. */
  lemma QuotesRead(cmd: char, rest: string, mode: Mode)
    requires cmd in ['\'', '"', '?']
    ensures Reads(['\\', cmd], if mode.AnsiCQuotes? then [cmd as int] else [0x5C, cmd as int], rest, mode)
  {
    hide Expand;
    OneLetter(cmd, rest);
    EscapeReads([cmd], if mode.AnsiCQuotes? then [cmd as int] else [0x5C, cmd as int], rest, mode);
    assert ['\\', cmd] == ['\\'] + [cmd];
  }

  /** The characters that mean something after a backslash. */
  predicate IsCommand(c: char, mode: Mode) {
    || c in ['a', 'b', 'c', 'e', 'E', 'f', 'n', 'r', 't', 'v', '\\', '0', 'x', 'u', 'U']
    || (mode.AnsiCQuotes? && c in ['\'', '"', '?', '1', '2', '3', '4', '5', '6', '7'])
  }

  /** Before every other character the backslash stays, and so it does at the end. */
  lemma OthersRead(c: char, rest: string, mode: Mode)
    ensures !IsCommand(c, mode) ==> Reads(['\\', c], [0x5C] + EncodeChar(c), rest, mode)
    ensures Expand(['\\'], mode) == Some(([0x5C], true))
  {
    if !IsCommand(c, mode) {
      hide Expand;
      OneLetter(c, rest);
      EscapeReads([c], [0x5C] + EncodeChar(c), rest, mode);
      assert ['\\', c] == ['\\'] + [c];
    }
  }

  // ----- \c -----

  /** In `echo`, `\c` stops all output: the text before it is kept, and nothing after it is looked
      at. */
  lemma StopReads(text: string, rest: string)
    requires '\\' !in text
    ensures Expand(text + (['\\', 'c'] + rest), EchoBuiltin) == Some((Encode(text), false))
  {
    PlainReads(text, ['\\', 'c'] + rest, EchoBuiltin);
    assert (['\\', 'c'] + rest)[1..] == ['c'] + rest;
    assert Encode(text) + [] == Encode(text);
  }

  /** The code that control makes of an ASCII character: that of the upper-case letter without its
      two high bits, and DEL for the question mark. */
  function ControlCode(n: nat): nat {
    if n == 0x3F then 0x7F else if 0x61 <= n <= 0x7A then n - 0x60 else n % 0x20
  }

  /** In ANSI-C quotes, `\cX` is the control character of X; a backslash as X takes a second one
      with it. */
  lemma ControlReads(c: char, rest: string)
    ensures c as int < 0x80 && c != '\\' ==> Reads(['\\', 'c', c], [ControlCode(c as int)], rest, AnsiCQuotes)
    ensures Reads(['\\', 'c', '\\', '\\'], [0x1C], rest, AnsiCQuotes)
    ensures rest == "" || rest[0] != '\\' ==> Reads(['\\', 'c', '\\'], [0x1C], rest, AnsiCQuotes)
  {
    if c as int < 0x80 && c != '\\' {
      ControlReadsOne(c, rest);
    }
    ControlReadsBackslash(rest);
  }

  /** At the end `\c` stays as it is. */
  lemma ControlAtEnd()
    ensures Expand(['\\', 'c'], AnsiCQuotes) == Some(([0x5C, 0x63], true))
  {
    hide Expand;
    assert (['c'] + "")[1..] == "";
    assert EncodeChar('c') == [0x63];
    EscapeReads(['c'], [0x5C, 0x63], "", AnsiCQuotes);
    assert ['\\'] + ['c'] + "" == ['\\', 'c'];
    EscapeNumerals.ExpandNothing(AnsiCQuotes);
    assert [0x5C, 0x63] + [] == [0x5C, 0x63];
  }

  lemma ControlReadsOne(c: char, rest: string)
    requires c as int < 0x80 && c != '\\'
    ensures Reads(['\\', 'c', c], [ControlCode(c as int)], rest, AnsiCQuotes)
  {
    hide Expand;
    assert (['c', c] + rest)[1..] == [c] + rest;
    OneLetter(c, rest);
    ControlStepOne(c, rest);
    EscapeReads(['c', c], [ControlCode(c as int)], rest, AnsiCQuotes);
    assert ['\\', 'c', c] == ['\\'] + ['c', c];
  }

  lemma ControlStepOne(c: char, rest: string)
    requires c as int < 0x80 && c != '\\'
    ensures ControlStep([c] + rest) == Emit([ControlCode(c as int)], rest)
  {
    OneLetter(c, rest);
    assert ToAsciiUpper(c) as int < 0x80;
    assert EncodeChar(ToAsciiUpper(c)) == [ToAsciiUpper(c) as int];
  }

  lemma ControlReadsBackslash(rest: string)
    ensures Reads(['\\', 'c', '\\', '\\'], [0x1C], rest, AnsiCQuotes)
    ensures rest == "" || rest[0] != '\\' ==> Reads(['\\', 'c', '\\'], [0x1C], rest, AnsiCQuotes)
  {
    hide Expand;
    var two, one := ['\\', '\\'] + rest, ['\\'] + rest;
    assert (['c', '\\', '\\'] + rest)[1..] == two && two[2..] == rest;
    assert EncodeChar('\\') == [0x5C];
    EscapeReads(['c', '\\', '\\'], [0x1C], rest, AnsiCQuotes);
    assert ['\\', 'c', '\\', '\\'] == ['\\'] + ['c', '\\', '\\'];
    if rest == "" || rest[0] != '\\' {
      assert (['c', '\\'] + rest)[1..] == one && one[1..] == rest && (rest != "" ==> one[1] == rest[0]);
      EscapeReads(['c', '\\'], [0x1C], rest, AnsiCQuotes);
      assert ['\\', 'c', '\\'] == ['\\'] + ['c', '\\'];
    }
  }

  /** Of a character that takes several bytes only the first is changed. */
  lemma ControlReadsWide(c: char, rest: string)
    requires c as int >= 0x80
    ensures Reads(['\\', 'c', c], [EncodeChar(c)[0] % 0x20] + EncodeChar(c)[1..], rest, AnsiCQuotes)
  {
    hide Expand;
    assert (['c', c] + rest)[1..] == [c] + rest;
    OneLetter(c, rest);
    assert EncodeChar(c)[0] >= 0x80;
    EscapeReads(['c', c], [EncodeChar(c)[0] % 0x20] + EncodeChar(c)[1..], rest, AnsiCQuotes);
    assert ['\\', 'c', c] == ['\\'] + ['c', c];
  }

  // ----- Numerals -----

  /** Digits by their codes; hexadecimal ones have letters of either case. */
  predicate HexCode(n: int) { 48 <= n <= 57 || 65 <= n <= 70 || 97 <= n <= 102 }

  predicate HexText(s: string) { forall i :: 0 <= i < |s| ==> HexCode(s[i] as int) }

  predicate OctalText(s: string) { forall i :: 0 <= i < |s| ==> 48 <= s[i] as int <= 55 }

  function DigitCode(c: char): nat {
    var n := c as int;
    if 97 <= n then n - 87 else if 65 <= n then n - 55 else if 48 <= n then n - 48 else 0
  }

  /** The number that a text denotes, from its first digit on. */
  function Numeral(s: string, base: nat, before: nat): nat {
    if s == "" then before else Numeral(s[1..], base, before * base + DigitCode(s[0]))
  }

  lemma {:induction false} NumeralSnoc(s: string, base: nat, before: nat)
    requires s != ""
    ensures Numeral(s, base, before) == Numeral(s[..|s| - 1], base, before) * base + DigitCode(s[|s| - 1])
    decreases |s|
  {
    if |s| > 1 {
      NumeralSnoc(s[1..], base, before * base + DigitCode(s[0]));
      assert s[1..][..|s| - 2] == s[..|s| - 1][1..];
    }
  }

  lemma {:induction false} HexNumeral(s: string)
    requires HexText(s)
    ensures forall i :: 0 <= i < |s| ==> IsHex(s[i])
    ensures HexValue(s) == Numeral(s, 16, 0)
    decreases |s|
  {
    if s != "" {
      HexNumeral(s[..|s| - 1]);
      NumeralSnoc(s, 16, 0);
      assert HexDigit(s[|s| - 1]) == DigitCode(s[|s| - 1]);
    }
  }

  lemma {:induction false} OctalNumeral(s: string)
    requires OctalText(s)
    ensures forall i :: 0 <= i < |s| ==> IsOctal(s[i])
    ensures OctalValue(s) == Numeral(s, 8, 0)
    decreases |s|
  {
    if s != "" {
      OctalNumeral(s[..|s| - 1]);
      NumeralSnoc(s, 8, 0);
      assert OctalDigit(s[|s| - 1]) == DigitCode(s[|s| - 1]);
    }
  }

  /** The text does not go on with such a digit, or there is no room for one. */
  predicate HexEnds(rest: string) { rest == "" || !HexCode(rest[0] as int) }

  predicate OctalEnds(rest: string) { rest == "" || !(48 <= rest[0] as int <= 55) }

  lemma {:induction false} HexTaken(digits: string, rest: string, max: nat)
    requires HexText(digits) && |digits| <= max && (|digits| == max || HexEnds(rest))
    ensures TakeHex(digits + rest, max) == digits && (digits + rest)[|digits|..] == rest
    decreases |digits|
  {
    if digits == "" {
      assert digits + rest == rest;
    } else {
      assert (digits + rest)[1..] == digits[1..] + rest;
      HexTaken(digits[1..], rest, max - 1);
    }
  }

  lemma {:induction false} OctalTaken(digits: string, rest: string, max: nat)
    requires OctalText(digits) && |digits| <= max && (|digits| == max || OctalEnds(rest))
    ensures TakeOctal(digits + rest, max) == digits && (digits + rest)[|digits|..] == rest
    decreases |digits|
  {
    if digits == "" {
      assert digits + rest == rest;
    } else {
      assert (digits + rest)[1..] == digits[1..] + rest;
      OctalTaken(digits[1..], rest, max - 1);
    }
  }

  /** `\u` takes up to four digits and `\U` up to eight. They stand for the character of that code
      point; if there is none, or there are no digits, the backslash and the letter are what is
      left. */
  lemma UnicodeReads(cmd: char, digits: string, rest: string, mode: Mode)
    requires cmd in ['u', 'U'] && HexText(digits) && |digits| <= (if cmd == 'u' then 4 else 8)
    requires |digits| == (if cmd == 'u' then 4 else 8) || HexEnds(rest)
    ensures var n := Numeral(digits, 16, 0);
            if digits == "" || 0xD800 <= n < 0xE000 || n >= 0x11_0000
            then Reads(['\\', cmd] + digits, [0x5C, cmd as int], rest, mode)
            else n < 0x11_0000 && Reads(['\\', cmd] + digits, EncodeChar(n as char), rest, mode)
  {
    hide Expand, EncodeChar, Numeral, UnicodeStep, Escapes.Escape;
    UnicodeStepIs(cmd, digits, rest, if cmd == 'u' then 4 else 8);
    EscapeIsUnicode(cmd, digits + rest, mode);
    AsciiByte(cmd);
    assert [0x5C] + EncodeChar(cmd) == [0x5C, cmd as int];
    TextAfter(cmd, digits, rest);
    EscapeReads([cmd] + digits, UnicodeStep(cmd, digits + rest, if cmd == 'u' then 4 else 8).bytes, rest, mode);
  }

  lemma UnicodeStepIs(cmd: char, digits: string, rest: string, max: nat)
    requires HexText(digits) && |digits| <= max && (|digits| == max || HexEnds(rest))
    ensures var n := Numeral(digits, 16, 0);
            UnicodeStep(cmd, digits + rest, max)
            == Emit(if digits != "" && IsScalarValue(n) then EncodeChar(n as char) else [0x5C] + EncodeChar(cmd), rest)
  {
    hide EncodeChar, Numeral;
    HexNumeral(digits);
    HexTaken(digits, rest, max);
  }

  lemma EscapeIsUnicode(cmd: char, s: string, mode: Mode)
    requires cmd in ['u', 'U']
    ensures Escapes.Escape([cmd] + s, mode) == UnicodeStep(cmd, s, if cmd == 'u' then 4 else 8)
  {
    hide UnicodeStep;
    OneLetter(cmd, s);
  }

  lemma TextAfter(cmd: char, digits: string, rest: string)
    ensures [cmd] + digits + rest == [cmd] + (digits + rest)
    ensures ['\\', cmd] + digits == ['\\'] + ([cmd] + digits)
  {
  }

  lemma AsciiByte(c: char)
    requires c as int < 0x80
    ensures EncodeChar(c) == [c as int]
  {
  }

  /** `\0` takes up to three octal digits, and in ANSI-C quotes any other octal digit starts a
      numeral of up to three; none is zero, and more than a byte is an error. */
  lemma OctalReads(cmd: char, digits: string, rest: string, mode: Mode)
    requires OctalText(digits) && (cmd == '0' || (mode.AnsiCQuotes? && 49 <= cmd as int <= 55))
    requires var max := if cmd == '0' then 3 else 2; |digits| <= max && (|digits| == max || OctalEnds(rest))
    ensures var n := Numeral([cmd] + digits, 8, 0);
            if n < 256 then Reads(['\\', cmd] + digits, [n], rest, mode)
            else Expand(['\\', cmd] + digits + rest, mode) == None
  {
    hide Expand, Numeral, OctalValue, Escapes.Escape;
    EscapeIsOctal(cmd, digits, rest, mode);
    TextAfter(cmd, digits, rest);
    if Numeral([cmd] + digits, 8, 0) < 256 {
      EscapeReads([cmd] + digits, [Numeral([cmd] + digits, 8, 0)], rest, mode);
    } else {
      EscapeFails([cmd] + digits, rest, mode);
    }
  }

  lemma EscapeIsOctal(cmd: char, digits: string, rest: string, mode: Mode)
    requires OctalText(digits) && (cmd == '0' || (mode.AnsiCQuotes? && 49 <= cmd as int <= 55))
    requires var max := if cmd == '0' then 3 else 2; |digits| <= max && (|digits| == max || OctalEnds(rest))
    ensures var n := Numeral([cmd] + digits, 8, 0);
            Escapes.Escape([cmd] + (digits + rest), mode) == if n < 256 then Emit([n], rest) else Overflow
  {
    hide Numeral, OctalValue, Escapes.Escape, TakeOctal;
    OctalTaken(digits, rest, if cmd == '0' then 3 else 2);
    OctalNumeral(digits);
    OctalNumeral([cmd] + digits);
    LeadingZero(cmd, digits);
    if cmd == '0' {
      EscapeZero(digits + rest, mode);
    } else {
      EscapeOctalDigit(cmd, digits + rest);
    }
  }

  lemma EscapeZero(s: string, mode: Mode)
    ensures Escapes.Escape(['0'] + s, mode) == OctalStep(TakeOctal(s, 3), s[|TakeOctal(s, 3)|..])
  {
    hide OctalStep, TakeOctal;
    OneLetter('0', s);
  }

  lemma EscapeOctalDigit(cmd: char, s: string)
    requires 49 <= cmd as int <= 55
    ensures Escapes.Escape([cmd] + s, AnsiCQuotes) == OctalStep([cmd] + TakeOctal(s, 2), s[|TakeOctal(s, 2)|..])
  {
    hide OctalStep, TakeOctal;
    OneLetter(cmd, s);
  }

  lemma EscapeFails(text: string, rest: string, mode: Mode)
    requires text != "" && Escapes.Escape(text + rest, mode) == Overflow
    ensures Expand(['\\'] + text + rest, mode) == None
  {
    hide Escapes.Escape;
    assert (['\\'] + text + rest)[1..] == text + rest;
  }

  lemma LeadingZero(cmd: char, digits: string)
    ensures cmd == '0' ==> Numeral([cmd] + digits, 8, 0) == Numeral(digits, 8, 0)
  {
    OneLetter(cmd, digits);
  }

  // ----- \x -----

  /** What `\x` makes of its digits: their number modulo 256, unless it does not fit 32 bits. */
  ghost predicate HexReads(text: string, digits: string, rest: string, mode: Mode) {
    var n := Numeral(digits, 16, 0);
    if n < 0x1_0000_0000 then Reads(text, [n % 256], rest, mode) else Expand(text + rest, mode) == None
  }

  lemma {:induction false} ScanTakes(digits: string, rest: string, mode: Mode, brace: bool, before: string)
    requires HexText(digits) && HexText(before) && (brace || |before| + |digits| <= 2)
    requires forall i :: 0 <= i < |before| ==> IsHex(before[i])
    ensures forall i :: 0 <= i < |before + digits| ==> IsHex((before + digits)[i])
    ensures ScanHex(digits + rest, mode, brace, false, before) == ScanHex(rest, mode, brace, false, before + digits)
    decreases |digits|
  {
    if digits == "" {
      assert digits + rest == rest && before + digits == before;
    } else {
      assert (digits + rest)[1..] == digits[1..] + rest;
      ScanTakes(digits[1..], rest, mode, brace, before + [digits[0]]);
      assert before + [digits[0]] + digits[1..] == before + digits;
    }
  }

  lemma EscapeIsHex(s: string, mode: Mode)
    ensures Escapes.Escape(['x'] + s, mode) == HexStep(ScanHex(s, mode, false, false, ""))
  {
    hide HexStep, ScanHex;
    OneLetter('x', s);
  }

  lemma HexFrom(text: string, h: Hex, rest: string, mode: Mode)
    requires HexText(h.digits) && h.rest == rest
    requires forall i :: 0 <= i < |h.digits| ==> IsHex(h.digits[i])
    requires h == ScanHex(text + rest, mode, false, false, "")
    ensures h.digits != "" ==> HexReads(['\\', 'x'] + text, h.digits, rest, mode)
    ensures h.digits == "" ==> Reads(['\\', 'x'] + text, if h.brace then [0] else [0x5C, 0x78], rest, mode)
  {
    hide Expand, Numeral, HexValue, ScanHex, Escapes.Escape;
    HexNumeral(h.digits);
    EscapeIsHex(text + rest, mode);
    TextAfter('x', text, rest);
    AsciiByte('x');
    assert [0x5C] + EncodeChar('x') == [0x5C, 0x78];
    if h.digits != "" && Numeral(h.digits, 16, 0) >= 0x1_0000_0000 {
      EscapeFails(['x'] + text, rest, mode);
    } else {
      EscapeReads(['x'] + text, HexStep(h).bytes, rest, mode);
    }
  }

  /** `\x` takes one or two digits; with none, and no brace in ANSI-C quotes, it stays as it is. */
  lemma TwoHexRead(digits: string, rest: string, mode: Mode)
    requires HexText(digits) && |digits| <= 2 && (|digits| == 2 || HexEnds(rest))
    requires mode.AnsiCQuotes? && rest != "" ==> rest[0] != '{'
    ensures if digits == "" then Reads(['\\', 'x'], [0x5C, 0x78], rest, mode)
            else HexReads(['\\', 'x'] + digits, digits, rest, mode)
  {
    hide Expand, Numeral;
    ScanTakes(digits, rest, mode, false, "");
    assert "" + digits == digits;
    ScanEnds(rest, mode, false, digits);
    HexFrom(digits, Hex(digits, false, rest), rest, mode);
    assert ['\\', 'x'] + "" == ['\\', 'x'];
  }

  lemma ScanEnds(rest: string, mode: Mode, brace: bool, digits: string)
    requires forall i :: 0 <= i < |digits| ==> IsHex(digits[i])
    requires !brace ==> (|digits| == 2 || HexEnds(rest)) && (mode.AnsiCQuotes? && rest != "" ==> rest[0] != '{')
    requires !brace ==> |digits| <= 2
    requires brace ==> digits != "" && HexEnds(rest) && (rest != "" ==> rest[0] != '}')
    ensures ScanHex(rest, mode, brace, false, digits) == Hex(digits, brace, rest)
  {
  }

  /** In ANSI-C quotes a brace, even one behind the first two digits, lifts the limit on their
      number; it ends at a closing brace, or before anything else that is no digit. */
  lemma BracedHexRead(digits: string, more: string, closed: bool, rest: string)
    requires HexText(digits) && HexText(more) && |digits| <= 2 && digits + more != ""
    requires !closed ==> HexEnds(rest) && (rest != "" ==> rest[0] != '}')
    ensures HexReads(['\\', 'x'] + (digits + ['{'] + more + if closed then ['}'] else ""),
                     digits + more, rest, AnsiCQuotes)
  {
    hide Expand, Numeral, ScanHex;
    var end := if closed then ['}'] else "";
    var text := digits + ['{'] + more + end;
    BraceOpens(digits, more + (end + rest));
    assert text + rest == digits + (['{'] + (more + (end + rest)));
    ScanTakes(more, end + rest, AnsiCQuotes, true, digits);
    if closed {
      BraceCloses(rest, digits + more);
    } else {
      assert end + rest == rest;
      ScanEnds(rest, AnsiCQuotes, true, digits + more);
    }
    HexFrom(text, Hex(digits + more, true, rest), rest, AnsiCQuotes);
  }

  lemma BraceOpens(digits: string, s: string)
    requires HexText(digits) && |digits| <= 2
    ensures forall i :: 0 <= i < |digits| ==> IsHex(digits[i])
    ensures ScanHex(digits + (['{'] + s), AnsiCQuotes, false, false, "") == ScanHex(s, AnsiCQuotes, true, false, digits)
  {
    ScanTakes(digits, ['{'] + s, AnsiCQuotes, false, "");
    assert "" + digits == digits;
    OneLetter('{', s);
  }

  lemma BraceCloses(rest: string, digits: string)
    requires forall i :: 0 <= i < |digits| ==> IsHex(digits[i])
    ensures ScanHex(['}'] + rest, AnsiCQuotes, true, false, digits) == Hex(digits, true, rest)
    ensures digits == "" ==> ScanHex(['}'] + rest, AnsiCQuotes, true, true, digits) == Hex(digits, true, rest)
  {
    OneLetter('}', rest);
  }

  /** Braces with no digits, or with something else before the first one, are a zero byte, whatever
      they hold. */
  lemma JunkReads(junk: string, rest: string)
    requires '}' !in junk && HexEnds(junk)
    ensures Reads(['\\', 'x'] + (['{'] + junk + ['}']), [0], rest, AnsiCQuotes)
  {
    hide Expand, Numeral, ScanHex;
    BraceOpens("", junk + (['}'] + rest));
    var text := ['{'] + junk + ['}'];
    assert text + rest == "" + (['{'] + (junk + (['}'] + rest)));
    JunkSkipped(junk, rest);
    HexFrom(text, Hex("", true, rest), rest, AnsiCQuotes);
  }

  lemma JunkSkipped(junk: string, rest: string)
    requires '}' !in junk && HexEnds(junk)
    ensures ScanHex(junk + (['}'] + rest), AnsiCQuotes, true, false, "") == Hex("", true, rest)
  {
    if junk == "" {
      assert junk + (['}'] + rest) == ['}'] + rest;
      BraceCloses(rest, "");
    } else {
      assert (junk + (['}'] + rest))[1..] == junk[1..] + (['}'] + rest);
      MoreJunkSkipped(junk[1..], rest);
    }
  }

  lemma {:induction false} MoreJunkSkipped(junk: string, rest: string)
    requires '}' !in junk
    ensures ScanHex(junk + (['}'] + rest), AnsiCQuotes, true, true, "") == Hex("", true, rest)
  {
    if junk == "" {
      assert junk + (['}'] + rest) == ['}'] + rest;
      BraceCloses(rest, "");
    } else {
      assert (junk + (['}'] + rest))[1..] == junk[1..] + (['}'] + rest);
      MoreJunkSkipped(junk[1..], rest);
    }
  }

  // ----- The cut -----

  /** ANSI-C quotes end at the first zero byte; `echo` keeps it. */
  lemma DecodeCuts(text: string, mode: Mode)
    ensures var (e, d) := (Expand(text, mode), Decode(text, mode));
            if e.None? then d.None?
            else
              var (bytes, more) := e.value;
              && d.Some? && d.value.1 == more && d.value.0 <= bytes
              && if mode.EchoBuiltin? || 0 !in bytes then d.value.0 == bytes
                 else |d.value.0| < |bytes| && 0 !in d.value.0 && bytes[|d.value.0|] == 0
  {
    hide Expand;
    var e := Expand(text, mode);
    if mode.AnsiCQuotes? && e.Some? && 0 in e.value.0 {
      var n := FirstZero(e.value.0);
      UpToNulAt(e.value.0, n);
    }
  }

  lemma FirstZero(bytes: seq<byte>) returns (n: nat)
    requires 0 in bytes
    ensures n < |bytes| && bytes[n] == 0 && forall k :: 0 <= k < n ==> bytes[k] != 0
  {
    n := 0;
    while bytes[n] != 0
      invariant n < |bytes| && forall k :: 0 <= k < n ==> bytes[k] != 0
      decreases |bytes| - n
    {
      assert exists k :: 0 <= k < |bytes| && bytes[k] == 0;
      n := n + 1;
    }
  }
}
