/** Backslash-escape decoding and the quoting of strings, each with the reader it must agree with. */
module Escape {
  import opened Sequences
  import opened Wrappers
  import opened Utf8

  // ----- Decoding backslash escapes -----

  datatype Mode = EchoBuiltin | AnsiCQuotes

  /** What one escape does: emit bytes and go on after it, stop all output, or fail because a
      number does not fit its integer type. */
  datatype Step = Emit(bytes: seq<byte>, rest: string) | Stop | Overflow

  /** The decoded bytes and whether output continues; nothing on an integer overflow. */
  type Decoded = Option<(seq<byte>, bool)>

  function Prepend(bytes: seq<byte>, d: Decoded): Decoded {
    match d
    case Some((more, go)) => Some((bytes + more, go))
    case None => None
  }

  const BACKSLASH: byte := 0x5C

  predicate IsOctal(c: char) { '0' <= c <= '7' }

  predicate IsHex(c: char) { '0' <= c <= '9' || 'a' <= c <= 'f' || 'A' <= c <= 'F' }

  function OctalDigit(c: char): (d: nat)
    requires IsOctal(c)
    ensures d < 8
  {
    c as int - '0' as int
  }

  function HexDigit(c: char): (d: nat)
    requires IsHex(c)
    ensures d < 16
  {
    if c <= '9' then c as int - '0' as int
    else if c <= 'F' then c as int - 'A' as int + 10
    else c as int - 'a' as int + 10
  }

  function OctalValue(s: string): nat
    requires forall i :: 0 <= i < |s| ==> IsOctal(s[i])
  {
    if s == "" then 0 else 8 * OctalValue(s[..|s| - 1]) + OctalDigit(s[|s| - 1])
  }

  function HexValue(s: string): nat
    requires forall i :: 0 <= i < |s| ==> IsHex(s[i])
  {
    if s == "" then 0 else 16 * HexValue(s[..|s| - 1]) + HexDigit(s[|s| - 1])
  }

  /** The longest prefix of octal digits, at most `max` of them. */
  function TakeOctal(s: string, max: nat): (p: string)
    ensures p <= s && |p| <= max && forall i :: 0 <= i < |p| ==> IsOctal(p[i])
    ensures |p| == max || |p| == |s| || !IsOctal(s[|p|])
  {
    if s == "" || max == 0 || !IsOctal(s[0]) then "" else [s[0]] + TakeOctal(s[1..], max - 1)
  }

  function TakeHex(s: string, max: nat): (p: string)
    ensures p <= s && |p| <= max && forall i :: 0 <= i < |p| ==> IsHex(p[i])
    ensures |p| == max || |p| == |s| || !IsHex(s[|p|])
  {
    if s == "" || max == 0 || !IsHex(s[0]) then "" else [s[0]] + TakeHex(s[1..], max - 1)
  }

  function OctalStep(digits: string, rest: string): Step
    requires forall i :: 0 <= i < |digits| ==> IsOctal(digits[i])
  {
    if OctalValue(digits) < 256 then Emit([OctalValue(digits)], rest) else Overflow
  }

  /** `\u` and `\U`: a code point, or the escape itself when there is none. */
  function UnicodeStep(cmd: char, s: string, max: nat): Step {
    var digits := TakeHex(s, max);
    var n := HexValue(digits);
    Emit(if digits != "" && IsScalarValue(n) then EncodeChar(n as char) else [BACKSLASH] + EncodeChar(cmd),
         s[|digits|..])
  }

  /** The digits that `\x` collects, whether a brace was opened, and what is left. */
  datatype Hex = Hex(digits: string, brace: bool, rest: string)

  /** The scan behind `\x`: two digits, or in ANSI-C quotes any number of them in braces, where
      junk before the first digit disables the digits that follow. */
  function ScanHex(s: string, mode: Mode, brace: bool, invalid: bool, digits: string): (h: Hex)
    requires forall i :: 0 <= i < |digits| ==> IsHex(digits[i])
    ensures |h.rest| <= |s| && forall i :: 0 <= i < |h.digits| ==> IsHex(h.digits[i])
  {
    if s == "" then Hex(digits, brace, s)
    else if mode.AnsiCQuotes? && !brace && s[0] == '{' then ScanHex(s[1..], mode, true, invalid, digits)
    else if brace && s[0] == '}' then Hex(digits, brace, s[1..])
    else if ((brace && !invalid) || (!brace && |digits| < 2)) && IsHex(s[0]) then
      ScanHex(s[1..], mode, brace, invalid, digits + [s[0]])
    else if brace && digits == "" then ScanHex(s[1..], mode, brace, true, digits)
    else Hex(digits, brace, s)
  }

  function HexStep(h: Hex): Step
    requires forall i :: 0 <= i < |h.digits| ==> IsHex(h.digits[i])
  {
    if h.digits == "" then Emit(if h.brace then [0] else [BACKSLASH] + EncodeChar('x'), h.rest)
    else if HexValue(h.digits) < 0x1_0000_0000 then Emit([HexValue(h.digits) % 256], h.rest)
    else Overflow
  }

  function ToAsciiUpper(c: char): char {
    if 'a' <= c <= 'z' then (c as int - 32) as char else c
  }

  /** `\cX` in ANSI-C quotes; a backslash as X swallows a second one. */
  function ControlStep(s: string): Step {
    if s == "" then Emit([BACKSLASH] + EncodeChar('c'), s)
    else
      var bytes := EncodeChar(ToAsciiUpper(s[0]));
      var first := if bytes[0] == 0x3F then 0x7F else bytes[0] % 32;
      Emit([first] + bytes[1..], if s[0] == '\\' && |s| > 1 && s[1] == '\\' then s[2..] else s[1..])
  }

  /** The effect of the escape whose text after the backslash is `s`. */
  function Escape(s: string, mode: Mode): (step: Step)
    requires s != ""
    ensures step.Emit? ==> |step.rest| < |s|
  {
    var cmd, rest := s[0], s[1..];
    var ansi := mode.AnsiCQuotes?;
    if cmd == 'a' then Emit([0x07], rest)
    else if cmd == 'b' then Emit([0x08], rest)
    else if cmd == 'c' then (if ansi then ControlStep(rest) else Stop)
    else if cmd == 'e' || cmd == 'E' then Emit([0x1B], rest)
    else if cmd == 'f' then Emit([0x0C], rest)
    else if cmd == 'n' then Emit([0x0A], rest)
    else if cmd == 'r' then Emit([0x0D], rest)
    else if cmd == 't' then Emit([0x09], rest)
    else if cmd == 'v' then Emit([0x0B], rest)
    else if cmd == '\\' then Emit([BACKSLASH], rest)
    else if ansi && (cmd == '\'' || cmd == '"' || cmd == '?') then Emit(EncodeChar(cmd), rest)
    else if cmd == '0' then
      var digits := TakeOctal(rest, 3);
      OctalStep(digits, rest[|digits|..])
    else if cmd == 'x' then HexStep(ScanHex(rest, mode, false, false, ""))
    else if cmd == 'u' then UnicodeStep(cmd, rest, 4)
    else if cmd == 'U' then UnicodeStep(cmd, rest, 8)
    else if ansi && IsOctal(cmd) then
      var digits := TakeOctal(rest, 2);
      OctalStep([cmd] + digits, rest[|digits|..])
    else Emit([BACKSLASH] + EncodeChar(cmd), rest)
  }

  /** Decodes a whole text, before the cut at the first NUL. */
  function Expand(s: string, mode: Mode): Decoded
    decreases |s|
  {
    if s == "" then Some(([], true))
    else if s[0] != '\\' then Prepend(EncodeChar(s[0]), Expand(s[1..], mode))
    else if |s| == 1 then Some(([BACKSLASH], true))
    else
      match Escape(s[1..], mode)
      case Emit(bytes, rest) => Prepend(bytes, Expand(rest, mode))
      case Stop => Some(([], false))
      case Overflow => None
  }

  function UpToNul(bytes: seq<byte>): (r: seq<byte>)
    ensures r <= bytes && 0 !in r
    ensures 0 !in bytes ==> r == bytes
  {
    if bytes == [] || bytes[0] == 0 then [] else [bytes[0]] + UpToNul(bytes[1..])
  }

  /** What decoding means: in ANSI-C quotes the result is cut at the first NUL byte. */
  function Decode(s: string, mode: Mode): Decoded {
    match Expand(s, mode)
    case Some((bytes, go)) => Some((if mode.AnsiCQuotes? then UpToNul(bytes) else bytes, go))
    case None => None
  }

  /** The loop behind `\x`. */
  method ScanHexDigits(s: string, mode: Mode) returns (h: Hex)
    ensures h == ScanHex(s, mode, false, false, "")
  {
    var digits, invalidPrefix, brace, i := "", false, false, 0;
    while i < |s|
      invariant i <= |s| && forall k :: 0 <= k < |digits| ==> IsHex(digits[k])
      invariant ScanHex(s[i..], mode, brace, invalidPrefix, digits) == ScanHex(s, mode, false, false, "")
    {
      var c := s[i];
      assert s[i..][1..] == s[i + 1..];
      if mode.AnsiCQuotes? && !brace && c == '{' {
        brace := true;
      } else if brace && c == '}' {
        return Hex(digits, brace, s[i + 1..]);
      } else if ((brace && !invalidPrefix) || (!brace && |digits| < 2)) && IsHex(c) {
        digits := digits + [c];
      } else if brace && digits == "" {
        invalidPrefix := true;
      } else {
        return Hex(digits, brace, s[i..]);
      }
      i := i + 1;
    }
    h := Hex(digits, brace, "");
  }

  lemma PrependPrepend(a: seq<byte>, b: seq<byte>, d: Decoded)
    ensures Prepend(a, Prepend(b, d)) == Prepend(a + b, d)
  {
    if d.Some? {
      assert a + (b + d.value.0) == a + b + d.value.0;
    }
  }

  lemma PrependNothing(d: Decoded)
    ensures Prepend([], d) == d
  {
    if d.Some? {
      assert [] + d.value.0 == d.value.0;
    }
  }

  method EscapeStep(s: string, mode: Mode) returns (step: Step)
    requires s != ""
    ensures step == Escape(s, mode)
  {
    if s[0] == 'x' {
      var h := ScanHexDigits(s[1..], mode);
      step := HexStep(h);
    } else {
      step := Escape(s, mode);
    }
  }

  lemma {:induction false} UpToNulAt(bytes: seq<byte>, n: nat)
    requires n <= |bytes| && (forall k :: 0 <= k < n ==> bytes[k] != 0)
    requires n < |bytes| ==> bytes[n] == 0
    ensures UpToNul(bytes) == bytes[..n]
  {
    if n > 0 {
      UpToNulAt(bytes[1..], n - 1);
      assert bytes[..n] == [bytes[0]] + bytes[1..][..n - 1];
    }
  }

  method CropAtNul(bytes: seq<byte>) returns (r: seq<byte>)
    ensures r == UpToNul(bytes)
  {
    var n := 0;
    while n < |bytes| && bytes[n] != 0
      invariant n <= |bytes| && forall k :: 0 <= k < n ==> bytes[k] != 0
    {
      n := n + 1;
    }
    UpToNulAt(bytes, n);
    r := bytes[..n];
  }

  /** Appends to one buffer, escape by escape. */
  method ExpandBackslashEscapes(s: string, mode: Mode) returns (r: Decoded)
    ensures r == Decode(s, mode)
  {
    hide Escape, UpToNul, EncodeChar;
    var result: seq<byte> := [];
    var rest := s;
    PrependNothing(Expand(s, mode));
    while rest != ""
      invariant Expand(s, mode) == Prepend(result, Expand(rest, mode))
      decreases |rest|
    {
      var c := rest[0];
      if c != '\\' {
        PrependPrepend(result, EncodeChar(c), Expand(rest[1..], mode));
        result := result + EncodeChar(c);
        rest := rest[1..];
        continue;
      }
      if |rest| == 1 {
        assert result + [BACKSLASH] + [] == result + [BACKSLASH];
        result := result + [BACKSLASH];
        rest := "";
        continue;
      }
      var step := EscapeStep(rest[1..], mode);
      match step
      case Emit(bytes, more) =>
        PrependPrepend(result, bytes, Expand(more, mode));
        result := result + bytes;
        rest := more;
      case Stop =>
        assert result + [] == result;
        assert mode.EchoBuiltin? by { StopIsEcho(rest[1..], mode); }
        return Some((result, false));
      case Overflow =>
        return None;
    }
    assert result + [] == result;
    if mode.AnsiCQuotes? {
      result := CropAtNul(result);
    }
    r := Some((result, true));
  }

  lemma StopIsEcho(s: string, mode: Mode)
    requires s != "" && Escape(s, mode) == Stop
    ensures mode.EchoBuiltin?
  {
  }

  // ----- Quoting -----

  datatype QuoteMode = SingleQuote | DoubleQuote | BackslashEscape

  datatype QuoteOptions = QuoteOptions(alwaysQuote: bool, preferredMode: QuoteMode, avoidAnsiCQuotingNewline: bool)

  predicate NeedsEscaping(c: char) {
    || c == '(' || c == ')' || c == '[' || c == ']' || c == '{' || c == '}'
    || c == '$' || c == '*' || c == '?' || c == '|' || c == '&' || c == ';'
    || c == '<' || c == '>' || c == '`' || c == '\\' || c == '"' || c == '!'
    || c == '^' || c == ',' || c == ' ' || c == '\''
  }

  predicate NeedsAnsiCQuoting(c: char) {
    c as int < 0x20 || c as int == 0x7F
  }

  /** Replaces every character by a text. */
  function FlatMap(f: char -> string, s: string): string {
    if s == "" then "" else f(s[0]) + FlatMap(f, s[1..])
  }

  lemma {:induction false} FlatMapSnoc(f: char -> string, s: string, i: nat)
    requires i < |s|
    ensures FlatMap(f, s[..i + 1]) == FlatMap(f, s[..i]) + f(s[i])
  {
    if i == 0 {
      assert s[..1] == [s[0]] && [s[0]][1..] == "" && s[..0] == "";
      assert f(s[0]) + "" == f(s[0]);
    } else {
      FlatMapSnoc(f, s[1..], i - 1);
      assert s[..i + 1][1..] == s[1..][..i] && s[..i][1..] == s[1..][..i - 1];
      assert f(s[0]) + (FlatMap(f, s[1..][..i - 1]) + f(s[i])) == f(s[0]) + FlatMap(f, s[1..][..i - 1]) + f(s[i]);
    }
  }

  function Octal3(n: nat): string
    requires n < 256
  {
    [OctalChar(n / 64), OctalChar(n / 8 % 8), OctalChar(n % 8)]
  }

  function OctalChar(d: nat): (c: char)
    requires d < 8
    ensures IsOctal(c) && OctalDigit(c) == d
  {
    '0' + d as char
  }

  /** The letter that abbreviates a character in ANSI-C quotes, if it has one. */
  function AnsiCLetter(c: char): Option<char> {
    var n := c as int;
    if n == 0x07 then Some('a')
    else if n == 0x08 then Some('b')
    else if n == 0x1B then Some('E')
    else if n == 0x0C then Some('f')
    else if n == 0x0A then Some('n')
    else if n == 0x0D then Some('r')
    else if n == 0x09 then Some('t')
    else if n == 0x0B then Some('v')
    else if c == '\\' || c == '\'' then Some(c)
    else None
  }

  function AnsiCPiece(c: char): string {
    if AnsiCLetter(c).Some? then ['\\', AnsiCLetter(c).value]
    else if NeedsAnsiCQuoting(c) then ['\\'] + Octal3(c as int)
    else [c]
  }

  function BackslashPiece(c: char): string { if NeedsEscaping(c) then ['\\', c] else [c] }

  /** The characters a backslash escapes inside double quotes. */
  predicate EscapedInDouble(c: char) { c == '$' || c == '`' || c == '"' || c == '\\' }

  function DoublePiece(c: char): string { if EscapedInDouble(c) then ['\\', c] else [c] }

  function AnsiCBody(s: string): string { FlatMap(AnsiCPiece, s) }

  function FirstQuote(s: string): (i: nat)
    ensures i <= |s| && '\'' !in s[..i] && (i < |s| ==> s[i] == '\'')
  {
    if s == "" || s[0] == '\'' then 0
    else
      assert forall i :: 0 < i <= |s| ==> s[..i] == [s[0]] + s[1..][..i - 1];
      1 + FirstQuote(s[1..])
  }

  /** The parts of a string between its single quotes. */
  function SplitAtQuotes(s: string): (parts: seq<string>)
    ensures parts != []
    decreases |s|
  {
    var i := FirstQuote(s);
    if i == |s| then [s] else [s[..i]] + SplitAtQuotes(s[i + 1..])
  }

  function Enclosed(part: string): string { if part == "" then "" else "'" + part + "'" }

  function EscapedQuoteThen(parts: seq<string>): string {
    if parts == [] then "" else "\\'" + Enclosed(parts[0]) + EscapedQuoteThen(parts[1..])
  }

  function SingleQuoted(s: string): string {
    if s == "" then "''"
    else Enclosed(SplitAtQuotes(s)[0]) + EscapedQuoteThen(SplitAtQuotes(s)[1..])
  }

  function BackslashEscaped(s: string): string {
    if s == "" then "''" else FlatMap(BackslashPiece, s)
  }

  function DoubleQuoted(s: string): string { "\"" + FlatMap(DoublePiece, s) + "\"" }

  function AnsiCQuoted(s: string): string { "$'" + AnsiCBody(s) + "'" }

  predicate UsesAnsiC(s: string, o: QuoteOptions) {
    exists i :: 0 <= i < |s| && NeedsAnsiCQuoting(s[i]) && (!o.avoidAnsiCQuotingNewline || s[i] != '\n')
  }

  predicate HasSpecial(s: string) {
    exists i :: 0 <= i < |s| && NeedsEscaping(s[i])
  }

  predicate UsesDefaultQuotes(s: string, o: QuoteOptions) {
    o.alwaysQuote || s == "" || HasSpecial(s)
  }

  function Quote(s: string, o: QuoteOptions): string {
    if UsesAnsiC(s, o) then AnsiCQuoted(s)
    else if !UsesDefaultQuotes(s, o) then s
    else
      match o.preferredMode
      case BackslashEscape => BackslashEscaped(s)
      case SingleQuote => SingleQuoted(s)
      case DoubleQuote => DoubleQuoted(s)
  }

  function ForceQuote(s: string, mode: QuoteMode): string { Quote(s, QuoteOptions(true, mode, false)) }

  function QuoteIfNeeded(s: string, mode: QuoteMode): string { Quote(s, QuoteOptions(false, mode, false)) }

  /** The characters that are never left bare. */
  const SPECIAL := ['(', ')', '[', ']', '{', '}', '$', '*', '?', '|', '&', ';', '<', '>', '`', '\\', '"', '!', '^', ',',
                    ' ', '\'']

  /** Control characters put the text in ANSI-C quotes, but for newlines if that is asked for;
      otherwise it is quoted as preferred if that is asked for, if it is empty or if it has a special
      character, and is left as it is if not. */
  lemma QuotedHow(s: string, o: QuoteOptions)
    ensures var q := Quote(s, o);
            var control := exists c :: c in s && (c as int < 0x20 || c as int == 0x7F)
                                              && (c as int == 0x0A ==> !o.avoidAnsiCQuotingNewline);
            if control then q == AnsiCQuoted(s) && |q| >= 3 && q[0] == '$' && q[1] == '\'' && q[|q| - 1] == '\''
            else if o.alwaysQuote || s == "" || exists c :: c in s && c in SPECIAL
            then
              match o.preferredMode
              case BackslashEscape => q == BackslashEscaped(s)
              case SingleQuote => q == SingleQuoted(s) && ('\'' !in s ==> q == "'" + s + "'")
              case DoubleQuote => q == DoubleQuoted(s) && |q| >= 2 && q[0] == '"' && q[|q| - 1] == '"'
            else q == s
  {
    hide FlatMap, SplitAtQuotes;
    assert HasSpecial(s) <==> exists c :: c in s && c in SPECIAL by { SpecialIs(s); }
    ControlIs(s, o);
    if '\'' !in s {
      NoQuoteToSplit(s);
    }
  }

  /** What ANSI-C quotes write for a character: a letter for the controls that have one, three octal
      digits for the others, a backslash before backslashes and single quotes. */
  lemma AnsiCWrites(c: char)
    ensures var (n, piece) := (c as int, AnsiCPiece(c));
            if n == 0x07 then piece == ['\\', 'a']
            else if n == 0x08 then piece == ['\\', 'b']
            else if n == 0x1B then piece == ['\\', 'E']
            else if n == 0x0C then piece == ['\\', 'f']
            else if n == 0x0A then piece == ['\\', 'n']
            else if n == 0x0D then piece == ['\\', 'r']
            else if n == 0x09 then piece == ['\\', 't']
            else if n == 0x0B then piece == ['\\', 'v']
            else if n == 0x5C || n == 0x27 then piece == ['\\', c]
            else if n < 0x20 || n == 0x7F then
              && |piece| == 4 && piece[0] == '\\' && (forall i :: 1 <= i < 4 ==> 48 <= piece[i] as int <= 55)
              && n == 64 * (piece[1] as int - 48) + 8 * (piece[2] as int - 48) + (piece[3] as int - 48)
            else piece == [c]
  {
  }

  /** And of a whole text: what it writes for each character, in order. */
  lemma AnsiCWritesAll(s: string, t: string)
    ensures AnsiCBody(s + t) == AnsiCBody(s) + AnsiCBody(t)
    ensures AnsiCQuoted(s) == "$'" + AnsiCBody(s) + "'" && (|s| == 1 ==> AnsiCBody(s) == AnsiCPiece(s[0]))
  {
    FlatMapConcat(AnsiCPiece, s, t);
    assert |s| == 1 ==> s[1..] == "" && FlatMap(AnsiCPiece, s[1..]) == "";
  }

  lemma {:induction false} FlatMapConcat(f: char -> string, s: string, t: string)
    ensures FlatMap(f, s + t) == FlatMap(f, s) + FlatMap(f, t)
  {
    if s == "" {
      assert s + t == t;
    } else {
      FlatMapConcat(f, s[1..], t);
      assert (s + t)[0] == s[0] && (s + t)[1..] == s[1..] + t;
      Reassociate(f(s[0]), FlatMap(f, s[1..]), FlatMap(f, t));
    }
  }

  lemma ControlIs(s: string, o: QuoteOptions)
    ensures UsesAnsiC(s, o) <==>
              exists c :: c in s && (c as int < 0x20 || c as int == 0x7F)
                          && (c as int == 0x0A ==> !o.avoidAnsiCQuotingNewline)
  {
    assert '\n' as int == 0x0A;
    if UsesAnsiC(s, o) {
      var i :| 0 <= i < |s| && NeedsAnsiCQuoting(s[i]) && (!o.avoidAnsiCQuotingNewline || s[i] != '\n');
      assert s[i] in s;
    }
    forall c | c in s && (c as int < 0x20 || c as int == 0x7F) && (c as int == 0x0A ==> !o.avoidAnsiCQuotingNewline)
      ensures UsesAnsiC(s, o)
    {
      var i :| 0 <= i < |s| && s[i] == c;
      assert NeedsAnsiCQuoting(s[i]);
    }
  }

  lemma NoQuoteToSplit(s: string)
    requires '\'' !in s
    ensures SplitAtQuotes(s) == [s] && SingleQuoted(s) == "'" + s + "'"
  {
    assert FirstQuote(s) == |s|;
    assert [s][1..] == [];
  }

  lemma SpecialIs(s: string)
    ensures HasSpecial(s) <==> exists c :: c in s && c in SPECIAL
  {
    assert forall c :: NeedsEscaping(c) <==> c in SPECIAL;
  }

  // The four writers push onto one output buffer.

  lemma {:induction false} EscapedQuoteThenSnoc(parts: seq<string>, part: string)
    ensures EscapedQuoteThen(parts + [part]) == EscapedQuoteThen(parts) + ("\\'" + Enclosed(part))
  {
    var piece := "\\'" + Enclosed(part);
    if parts == [] {
      assert [part][1..] == [] && parts + [part] == [part];
      assert piece + "" == piece && "" + piece == piece;
    } else {
      var head := "\\'" + Enclosed(parts[0]);
      EscapedQuoteThenSnoc(parts[1..], part);
      assert (parts + [part])[1..] == parts[1..] + [part];
      assert head + (EscapedQuoteThen(parts[1..]) + piece) == head + EscapedQuoteThen(parts[1..]) + piece;
    }
  }

  function Joined(parts: seq<string>, k: nat): string
    requires k <= |parts|
  {
    if k == 0 then "" else Enclosed(parts[0]) + EscapedQuoteThen(parts[1..k])
  }

  lemma JoinedFirst(parts: seq<string>)
    requires parts != []
    ensures Joined(parts, 1) == "" + Enclosed(parts[0])
  {
    hide Enclosed;
    assert parts[1..1] == [];
    assert Enclosed(parts[0]) + "" == "" + Enclosed(parts[0]);
  }

  lemma JoinedSnoc(parts: seq<string>, k: nat)
    requires k < |parts|
    ensures Joined(parts, k + 1) == (if k == 0 then "" else Joined(parts, k) + "\\'") + Enclosed(parts[k])
  {
    hide Enclosed;
    if k == 0 {
      JoinedFirst(parts);
    } else {
      hide EscapedQuoteThen;
      EscapedQuoteThenSnoc(parts[1..k], parts[k]);
      assert parts[1..k + 1] == parts[1..k] + [parts[k]];
      AssociateFour(Enclosed(parts[0]), EscapedQuoteThen(parts[1..k]), "\\'", Enclosed(parts[k]));
    }
  }

  lemma AssociateFour(a: string, b: string, c: string, d: string)
    ensures a + (b + (c + d)) == a + b + c + d
  {
  }

  method WriteSingleQuoted(s: string) returns (result: string)
    ensures result == SingleQuoted(s)
  {
    if s == "" {
      return "''";
    }
    result := "";
    var parts := SplitAtQuotes(s);
    var first := true;
    for k := 0 to |parts|
      invariant first == (k == 0)
      invariant result == Joined(parts, k)
    {
      JoinedSnoc(parts, k);
      if !first {
        result := result + "\\'";
      } else {
        first := false;
      }
      result := AppendEnclosed(result, parts[k]);
    }
    assert parts[1..|parts|] == parts[1..];
  }

  method AppendEnclosed(buffer: string, part: string) returns (result: string)
    ensures result == buffer + Enclosed(part)
  {
    result := buffer;
    if part != "" {
      result := result + Enclosed(part);
    }
  }

  method WriteDoubleQuoted(s: string) returns (result: string)
    ensures result == DoubleQuoted(s)
  {
    result := "\"";
    for i := 0 to |s|
      invariant result == "\"" + FlatMap(DoublePiece, s[..i])
    {
      FlatMapSnoc(DoublePiece, s, i);
      if EscapedInDouble(s[i]) {
        result := result + "\\";
      }
      result := result + [s[i]];
    }
    assert s[..|s|] == s;
    result := result + "\"";
  }

  method WriteBackslashEscaped(s: string) returns (result: string)
    ensures result == BackslashEscaped(s)
  {
    if s == "" {
      return "''";
    }
    if !HasSpecial(s) {
      NothingEscaped(s);
      return s;
    }
    result := "";
    for i := 0 to |s|
      invariant result == FlatMap(BackslashPiece, s[..i])
    {
      FlatMapSnoc(BackslashPiece, s, i);
      if NeedsEscaping(s[i]) {
        result := result + "\\";
      }
      result := result + [s[i]];
    }
    assert s[..|s|] == s;
  }

  method WriteAnsiCQuoted(s: string) returns (result: string)
    ensures result == AnsiCQuoted(s)
  {
    result := "$'";
    for i := 0 to |s|
      invariant result == "$'" + AnsiCBody(s[..i])
    {
      FlatMapSnoc(AnsiCPiece, s, i);
      var c := s[i];
      if AnsiCLetter(c).Some? {
        result := result + ['\\', AnsiCLetter(c).value];
      } else if NeedsAnsiCQuoting(c) {
        result := result + (['\\'] + Octal3(c as int));
      } else {
        result := result + [c];
      }
    }
    assert s[..|s|] == s;
    result := result + "'";
  }

  lemma {:induction false} NothingEscaped(s: string)
    requires !HasSpecial(s)
    ensures FlatMap(BackslashPiece, s) == s
  {
    if s != "" {
      assert !HasSpecial(s[1..]) by {
        assert forall i :: 0 <= i < |s| - 1 ==> s[1..][i] == s[i + 1];
      }
      NothingEscaped(s[1..]);
      assert s == [s[0]] + s[1..];
    }
  }

  // ----- The reader: one word, free of expansions, with its quotes removed -----

  type Read = Option<seq<byte>>

  function Cons(bytes: seq<byte>, r: Read): Read {
    if r.Some? then Some(bytes + r.value) else None
  }

  /** Characters that, unquoted, end the word or start an expansion wherever they stand:
      the characters of POSIX XCU 2.2 with newline and tab, and those of patterns, braces and
      history expansion. */
  predicate IsSpecial(c: char) {
    || c == '|' || c == '&' || c == ';' || c == '<' || c == '>' || c == '('
    || c == ')' || c == '$' || c == '`' || c == '\\' || c == '"' || c == '\''
    || c == ' ' || c == '\t' || c == '\n' || c == '*' || c == '?' || c == '['
    || c == ']' || c == '{' || c == '}' || c == ',' || c == '!' || c == '^'
  }

  /** Offset of the quote that ends a dollar-single-quoted string: every backslash hides the
      character after it. */
  function CloseQuote(t: string): (k: Option<nat>)
    ensures k.Some? ==> k.value < |t| && t[k.value] == '\''
    decreases |t|
  {
    if t == "" then None
    else if t[0] == '\'' then Some(0)
    else if t[0] == '\\' then
      if |t| == 1 then None else Shift(2, CloseQuote(t[2..]))
    else Shift(1, CloseQuote(t[1..]))
  }

  function Shift(n: nat, k: Option<nat>): Option<nat> {
    if k.Some? then Some(n + k.value) else None
  }

  /** Reads a word (POSIX XCU 2.2.1 to 2.2.4 and 2.6.7). There is no result when the text is
      not a single word, needs an expansion, or leaves a quote open. */
  function ReadUnquoted(t: string): Read
    decreases |t|
  {
    if t == "" then Some([])
    else if t[0] == '\\' then
      if |t| == 1 || t[1] == '\n' then None else Cons(EncodeChar(t[1]), ReadUnquoted(t[2..]))
    else if t[0] == '\'' then ReadSingle(t[1..])
    else if t[0] == '"' then ReadDouble(t[1..])
    else if t[0] == '$' && |t| > 1 && t[1] == '\'' then ReadDollarSingle(t[2..])
    else if IsSpecial(t[0]) then None
    else Cons(EncodeChar(t[0]), ReadUnquoted(t[1..]))
  }

  function ReadSingle(t: string): Read
    decreases |t|
  {
    if t == "" then None
    else if t[0] == '\'' then ReadUnquoted(t[1..])
    else Cons(EncodeChar(t[0]), ReadSingle(t[1..]))
  }

  function ReadDouble(t: string): Read
    decreases |t|
  {
    if t == "" then None
    else if t[0] == '"' then ReadUnquoted(t[1..])
    else if t[0] == '$' || t[0] == '`' then None
    else if t[0] == '\\' && |t| > 1 && EscapedInDouble(t[1]) then Cons(EncodeChar(t[1]), ReadDouble(t[2..]))
    else if t[0] == '\\' && |t| > 1 && t[1] == '\n' then ReadDouble(t[2..])
    else Cons(EncodeChar(t[0]), ReadDouble(t[1..]))
  }

  function ReadDollarSingle(t: string): Read
    decreases |t|
  {
    match CloseQuote(t)
    case None => None
    case Some(k) =>
      match Decode(t[..k], AnsiCQuotes)
      case None => None
      case Some((bytes, _)) => Cons(bytes, ReadUnquoted(t[k + 1..]))
  }

  // ----- Reading back the quoted forms -----

  lemma ConsCons(a: seq<byte>, b: seq<byte>, r: Read)
    ensures Cons(a, Cons(b, r)) == Cons(a + b, r)
  {
    if r.Some? {
      Reassociate(a, b, r.value);
    }
  }

  lemma ConsNothing(r: Read)
    ensures Cons([], r) == r
  {
    if r.Some? {
      assert [] + r.value == r.value;
    }
  }

  /** Backslash escaping, and text that needs none: every control character but newline is out
      of the way, and a newline is what makes the text unreadable. */
  lemma {:induction false} BackslashReadsBack(s: string)
    requires forall i :: 0 <= i < |s| ==> NeedsAnsiCQuoting(s[i]) ==> s[i] == '\n'
    ensures ReadUnquoted(FlatMap(BackslashPiece, s)) == if '\n' in s then None else Some(Encode(s))
  {
    if s != "" {
      var c, rest := s[0], FlatMap(BackslashPiece, s[1..]);
      assert s == [c] + s[1..];
      BackslashReadsBack(s[1..]);
      BackslashPieceReads(c, rest);
    }
  }

  lemma BackslashPieceReads(c: char, rest: string)
    requires NeedsAnsiCQuoting(c) ==> c == '\n'
    ensures ReadUnquoted(BackslashPiece(c) + rest)
            == if c == '\n' then None else Cons(EncodeChar(c), ReadUnquoted(rest))
  {
    var t := BackslashPiece(c) + rest;
    if NeedsEscaping(c) {
      assert t[0] == '\\' && t[1] == c && t[2..] == rest;
    } else {
      assert t[0] == c && t[1..] == rest;
    }
  }

  lemma {:induction false} SinglePartReads(part: string, rest: string)
    requires '\'' !in part
    ensures ReadSingle(part + "'" + rest) == Cons(Encode(part), ReadUnquoted(rest))
  {
    var t := part + "'" + rest;
    if part == "" {
      assert t[0] == '\'' && t[1..] == rest;
      ConsNothing(ReadUnquoted(rest));
    } else {
      assert part == [part[0]] + part[1..];
      SinglePartReads(part[1..], rest);
      assert t[0] == part[0] && t[1..] == part[1..] + "'" + rest;
      ConsCons(EncodeChar(part[0]), Encode(part[1..]), ReadUnquoted(rest));
    }
  }

  lemma EnclosedReads(part: string, rest: string)
    requires '\'' !in part
    ensures ReadUnquoted(Enclosed(part) + rest) == Cons(Encode(part), ReadUnquoted(rest))
  {
    var t := Enclosed(part) + rest;
    if part == "" {
      assert t == rest;
      ConsNothing(ReadUnquoted(rest));
    } else {
      assert t[0] == '\'' && t[1..] == part + "'" + rest;
      SinglePartReads(part, rest);
    }
  }

  /** The text whose parts between single quotes are given. */
  function Unsplit(parts: seq<string>): string {
    if parts == [] then "" else "'" + parts[0] + Unsplit(parts[1..])
  }

  lemma SplitsAt(s: string, i: nat)
    requires i < |s| && s[i] == '\''
    ensures s == s[..i] + ("'" + s[i + 1..])
  {
  }

  lemma {:induction false} SplitUnsplit(s: string)
    ensures Unsplit(SplitAtQuotes(s)) == "'" + s
    ensures forall k :: 0 <= k < |SplitAtQuotes(s)| ==> '\'' !in SplitAtQuotes(s)[k]
    decreases |s|
  {
    hide FirstQuote;
    var i := FirstQuote(s);
    if i == |s| {
      assert s[..i] == s && [s][1..] == [];
      assert "'" + s + "" == "'" + s;
    } else {
      var more := SplitAtQuotes(s[i + 1..]);
      SplitUnsplit(s[i + 1..]);
      assert ([s[..i]] + more)[1..] == more;
      SplitsAt(s, i);
      Reassociate("'", s[..i], "'" + s[i + 1..]);
    }
  }

  lemma EscapedPartReads(part: string, rest: string)
    requires '\'' !in part
    ensures ReadUnquoted("\\'" + Enclosed(part) + rest) == Cons(Encode("'" + part), ReadUnquoted(rest))
  {
    var t := "\\'" + Enclosed(part) + rest;
    assert t[0] == '\\' && t[1] == '\'' && t[2..] == Enclosed(part) + rest;
    EnclosedReads(part, rest);
    ConsCons(EncodeChar('\''), Encode(part), ReadUnquoted(rest));
    assert ("'" + part)[1..] == part;
  }

  lemma {:induction false} PartsRead(parts: seq<string>)
    requires forall k :: 0 <= k < |parts| ==> '\'' !in parts[k]
    ensures ReadUnquoted(EscapedQuoteThen(parts)) == Some(Encode(Unsplit(parts)))
  {
    if parts != [] {
      hide ReadUnquoted, Encode;
      PartsRead(parts[1..]);
      EscapedPartReads(parts[0], EscapedQuoteThen(parts[1..]));
      EncodeConcat("'" + parts[0], Unsplit(parts[1..]));
    }
  }

  lemma EmptyQuotesRead()
    ensures ReadUnquoted("''") == Some([])
  {
    assert "''"[1..] == "'" && "'"[1..] == "";
    assert ReadSingle("'") == ReadUnquoted("");
  }

  lemma SingleQuotedReadsBack(s: string)
    ensures ReadUnquoted(SingleQuoted(s)) == Some(Encode(s))
  {
    if s == "" {
      EmptyQuotesRead();
    } else {
      hide ReadUnquoted, Encode, Enclosed, SplitAtQuotes;
      var parts := SplitAtQuotes(s);
      SplitUnsplit(s);
      PartsRead(parts[1..]);
      EnclosedReads(parts[0], EscapedQuoteThen(parts[1..]));
      EncodeConcat(parts[0], Unsplit(parts[1..]));
      UnsplitHead(parts, s);
    }
  }

  lemma UnsplitHead(parts: seq<string>, s: string)
    requires parts != [] && Unsplit(parts) == "'" + s
    ensures parts[0] + Unsplit(parts[1..]) == s
  {
    assert ("'" + parts[0] + Unsplit(parts[1..]))[1..] == parts[0] + Unsplit(parts[1..]);
    assert ("'" + s)[1..] == s;
  }

  lemma DoubleBodyEnds(rest: string)
    ensures ReadDouble("" + ("\"" + rest)) == Cons(Encode(""), ReadUnquoted(rest))
  {
    var t := "" + ("\"" + rest);
    assert t[0] == '"' && t[1..] == rest;
    ConsNothing(ReadUnquoted(rest));
  }

  lemma {:induction false} DoubleBodyReads(s: string, rest: string)
    ensures ReadDouble(FlatMap(DoublePiece, s) + ("\"" + rest)) == Cons(Encode(s), ReadUnquoted(rest))
  {
    if s == "" {
      DoubleBodyEnds(rest);
    } else {
      hide ReadDouble, ReadUnquoted, DoublePiece, EncodeChar;
      var c, more := s[0], FlatMap(DoublePiece, s[1..]) + ("\"" + rest);
      DoubleBodyReads(s[1..], rest);
      Reassociate(DoublePiece(c), FlatMap(DoublePiece, s[1..]), "\"" + rest);
      DoublePieceReads(c, more);
      ConsCons(EncodeChar(c), Encode(s[1..]), ReadUnquoted(rest));
    }
  }

  lemma DoublePieceReads(c: char, more: string)
    ensures ReadDouble(DoublePiece(c) + more) == Cons(EncodeChar(c), ReadDouble(more))
  {
    var t := DoublePiece(c) + more;
    if EscapedInDouble(c) {
      assert t[0] == '\\' && t[1] == c && t[2..] == more;
    } else {
      assert t[0] == c && t[1..] == more;
    }
  }

  lemma DoubleQuotedReadsBack(s: string)
    ensures ReadUnquoted(DoubleQuoted(s)) == Some(Encode(s))
  {
    var t := DoubleQuoted(s);
    DoubleBodyReads(s, "");
    assert t[0] == '"' && t[1..] == FlatMap(DoublePiece, s) + ("\"" + "");
    assert Encode(s) + [] == Encode(s);
  }

  // ----- ANSI-C quoting -----

  predicate PrintedInOctal(c: char) {
    NeedsAnsiCQuoting(c) && AnsiCLetter(c).None?
  }

  /** A character whose three octal digits, starting with 0, swallow a digit that follows. */
  predicate SwallowsDigit(c: char) {
    PrintedInOctal(c) && c as int != 0x7F
  }

  /** The exact condition of the round trip. */
  predicate AnsiCClean(s: string) {
    && '\0' !in s
    && forall i :: 0 <= i && i + 1 < |s| ==> SwallowsDigit(s[i]) ==> !IsOctal(s[i + 1])
  }

  lemma CleanTail(s: string)
    requires s != ""
    ensures AnsiCClean(s) <==>
            s[0] != '\0' && !(|s| > 1 && SwallowsDigit(s[0]) && IsOctal(s[1])) && AnsiCClean(s[1..])
  {
    assert s == [s[0]] + s[1..];
    assert forall i :: 0 <= i < |s| - 1 ==> s[1..][i] == s[i + 1];
    if AnsiCClean(s) {
      forall i | 0 <= i && i + 1 < |s[1..]| && SwallowsDigit(s[1..][i])
        ensures !IsOctal(s[1..][i + 1])
      {
        assert SwallowsDigit(s[i + 1]) && i + 1 + 1 < |s|;
      }
    }
    if AnsiCClean(s[1..]) && s[0] != '\0' && !(|s| > 1 && SwallowsDigit(s[0]) && IsOctal(s[1])) {
      forall i | 0 <= i && i + 1 < |s| && SwallowsDigit(s[i])
        ensures !IsOctal(s[i + 1])
      {
        assert i > 0 ==> s[1..][i - 1] == s[i] && s[1..][i] == s[i + 1];
      }
    }
  }

  /** The first character a printed body starts with, as far as octal digits go. */
  lemma BodyStart(s: string)
    ensures AnsiCBody(s) == "" <==> s == ""
    ensures s != "" && IsOctal(s[0]) ==> AnsiCBody(s)[0] == s[0]
    ensures s != "" && !IsOctal(s[0]) ==> !IsOctal(AnsiCBody(s)[0])
  {
    if s != "" {
      assert AnsiCBody(s)[0] == AnsiCPiece(s[0])[0];
    }
  }

  lemma TakeOctalExactly(digits: string, rest: string, max: nat)
    requires forall i :: 0 <= i < |digits| ==> IsOctal(digits[i])
    requires |digits| <= max && (|digits| == max || rest == "" || !IsOctal(rest[0]))
    ensures TakeOctal(digits + rest, max) == digits
    decreases |digits|
  {
    if digits == "" {
      assert digits + rest == rest;
    } else {
      assert (digits + rest)[0] == digits[0] && (digits + rest)[1..] == digits[1..] + rest;
      TakeOctalExactly(digits[1..], rest, max - 1);
    }
  }

  lemma OctalValue3(a: char, b: char, c: char)
    requires IsOctal(a) && IsOctal(b) && IsOctal(c)
    ensures OctalValue([a, b, c]) == 64 * OctalDigit(a) + 8 * OctalDigit(b) + OctalDigit(c)
  {
    assert [a, b, c][..2] == [a, b] && [a, b][..1] == [a] && [a][..0] == "";
    assert OctalValue([a]) == OctalDigit(a);
    assert OctalValue([a, b]) == 8 * OctalDigit(a) + OctalDigit(b);
  }

  lemma LetterEscape(c: char, rest: string)
    requires AnsiCLetter(c).Some?
    ensures Escape([AnsiCLetter(c).value] + rest, AnsiCQuotes) == Emit(EncodeChar(c), rest)
  {
    DropOne(AnsiCLetter(c).value, rest);
  }

  /** A character with an abbreviation, or none and no need of one, decodes to itself. */
  lemma PlainPieceExpands(c: char, rest: string)
    requires !PrintedInOctal(c)
    ensures Expand(AnsiCPiece(c) + rest, AnsiCQuotes) == Prepend(EncodeChar(c), Expand(rest, AnsiCQuotes))
  {
    hide Escape, EncodeChar;
    if AnsiCLetter(c).Some? {
      var letter := AnsiCLetter(c).value;
      LetterEscape(c, rest);
      DropPair('\\', letter, rest);
      DropOne('\\', [letter] + rest);
      assert ['\\', letter] + rest == ['\\'] + ([letter] + rest);
    } else {
      DropOne(c, rest);
    }
  }

  lemma OctalValue2(a: char, b: char)
    requires IsOctal(a) && IsOctal(b)
    ensures OctalValue([a, b]) == 8 * OctalDigit(a) + OctalDigit(b)
  {
    assert [a, b][..1] == [a] && [a][..0] == "";
    assert OctalValue([a]) == OctalDigit(a);
  }

  lemma DropPrefix(a: string, b: string)
    ensures (a + b)[|a|..] == b
  {
  }

  lemma EscapeZero(s: string)
    ensures var digits := TakeOctal(s, 3);
            Escape("0" + s, AnsiCQuotes) == OctalStep(digits, s[|digits|..])
  {
    hide TakeOctal;
    DropOne('0', s);
  }

  /** `\0` reads up to three more octal digits. */
  lemma ZeroEscapeExpands(digits: string, rest: string)
    requires digits != "" && |digits| <= 3 && forall i :: 0 <= i < |digits| ==> IsOctal(digits[i])
    requires |digits| == 3 || rest == "" || !IsOctal(rest[0])
    requires OctalValue(digits) < 256
    ensures Expand("\\0" + digits + rest, AnsiCQuotes) == Prepend([OctalValue(digits)], Expand(rest, AnsiCQuotes))
  {
    Reassociate("\\0", digits, rest);
    DropPair('\\', '0', digits + rest);
    DropOne('0', digits + rest);
    TakeOctalExactly(digits, rest, 3);
    DropPrefix(digits, rest);
    EscapeZero(digits + rest);
  }

  function LowDigits(c: char): string
    requires c as int < 0x40
    ensures |LowDigits(c)| == 2 && IsOctal(LowDigits(c)[0]) && IsOctal(LowDigits(c)[1])
  {
    [OctalChar(c as int / 8), OctalChar(c as int % 8)]
  }

  lemma ControlPiece(c: char)
    requires SwallowsDigit(c)
    ensures AnsiCPiece(c) == "\\0" + LowDigits(c) && OctalValue(LowDigits(c)) == c as int
  {
    var n := c as int;
    assert n / 64 == 0 && n / 8 % 8 == n / 8;
    OctalValue2(OctalChar(n / 8), OctalChar(n % 8));
  }

  /** `\001` to `\037`: three digits, and one more when the text goes on with one. */
  lemma ControlPieceExpands(c: char, rest: string)
    requires SwallowsDigit(c) && !(rest != "" && IsOctal(rest[0]))
    ensures Expand(AnsiCPiece(c) + rest, AnsiCQuotes) == Prepend(EncodeChar(c), Expand(rest, AnsiCQuotes))
  {
    hide Expand;
    ControlPiece(c);
    ZeroEscapeExpands(LowDigits(c), rest);
  }

  lemma ControlPieceSwallows(c: char, rest: string)
    requires SwallowsDigit(c) && rest != "" && IsOctal(rest[0])
    ensures Expand(AnsiCPiece(c) + rest, AnsiCQuotes)
            == Prepend([8 * (c as int) + OctalDigit(rest[0])], Expand(rest[1..], AnsiCQuotes))
  {
    hide Expand;
    ControlPiece(c);
    var digits := LowDigits(c) + [rest[0]];
    assert digits[..2] == LowDigits(c);
    assert "\\0" + digits + rest[1..] == "\\0" + LowDigits(c) + rest;
    ZeroEscapeExpands(digits, rest[1..]);
  }

  lemma DeletePieceExpands(c: char, rest: string)
    requires c as int == 0x7F
    ensures Expand(AnsiCPiece(c) + rest, AnsiCQuotes) == Prepend(EncodeChar(c), Expand(rest, AnsiCQuotes))
  {
    var t := AnsiCPiece(c) + rest;
    assert t[0] == '\\' && t[1..][0] == '1' && t[1..][1..] == ['7', '7'] + rest;
    TakeOctalExactly(['7', '7'], rest, 2);
    assert (['7', '7'] + rest)[2..] == rest;
    OctalValue3('1', '7', '7');
    assert ['1'] + ['7', '7'] == ['1', '7', '7'];
    assert Escape(t[1..], AnsiCQuotes) == OctalStep(['1', '7', '7'], rest);
  }

  lemma PieceExpands(s: string)
    requires s != "" && !(|s| > 1 && SwallowsDigit(s[0]) && IsOctal(s[1]))
    ensures Expand(AnsiCBody(s), AnsiCQuotes) == Prepend(EncodeChar(s[0]), Expand(AnsiCBody(s[1..]), AnsiCQuotes))
  {
    var c, rest := s[0], AnsiCBody(s[1..]);
    BodyStart(s[1..]);
    if !PrintedInOctal(c) {
      PlainPieceExpands(c, rest);
    } else if c as int == 0x7F {
      DeletePieceExpands(c, rest);
    } else {
      ControlPieceExpands(c, rest);
    }
  }

  lemma {:induction false} CleanBodyExpands(s: string)
    requires AnsiCClean(s)
    ensures Expand(AnsiCBody(s), AnsiCQuotes) == Some((Encode(s), true))
  {
    if s != "" {
      CleanTail(s);
      CleanBodyExpands(s[1..]);
      PieceExpands(s);
    }
  }

  lemma {:induction false} UpToNulConcat(a: seq<byte>, b: seq<byte>)
    requires 0 !in a
    ensures UpToNul(a + b) == a + UpToNul(b)
  {
    if a == [] {
      assert a + b == b;
    } else {
      UpToNulConcat(a[1..], b);
      assert (a + b)[0] == a[0] && (a + b)[1..] == a[1..] + b;
      Reassociate([a[0]], a[1..], UpToNul(b));
      assert [a[0]] + a[1..] == a;
    }
  }

  /** A text without NUL that is not clean decodes to something else: the first swallowed digit
      already changes a byte. */
  lemma {:induction false} UncleanBodyDiffers(s: string)
    requires '\0' !in s && !AnsiCClean(s)
    ensures var d := Expand(AnsiCBody(s), AnsiCQuotes); d.Some? ==> UpToNul(d.value.0) != Encode(s)
  {
    var c := s[0];
    assert s == [c] + s[1..];
    if |s| > 1 && SwallowsDigit(c) && IsOctal(s[1]) {
      SwallowedDigitDiffers(s);
    } else {
      CleanTail(s);
      UncleanBodyDiffers(s[1..]);
      PieceExpands(s);
      EncodeCharHasNul(c);
      var d := Expand(AnsiCBody(s[1..]), AnsiCQuotes);
      if d.Some? && UpToNul(d.value.0) != Encode(s[1..]) {
        UpToNulConcat(EncodeChar(c), d.value.0);
        if EncodeChar(c) + UpToNul(d.value.0) == EncodeChar(c) + Encode(s[1..]) {
          ConcatCancels(EncodeChar(c), UpToNul(d.value.0), Encode(s[1..]));
        }
      }
    }
  }

  lemma BodySwallows(s: string)
    requires |s| > 1 && SwallowsDigit(s[0]) && IsOctal(s[1])
    ensures AnsiCBody(s[1..]) != ""
    ensures Expand(AnsiCBody(s), AnsiCQuotes)
            == Prepend([8 * (s[0] as int) + OctalDigit(s[1])], Expand(AnsiCBody(s[1..])[1..], AnsiCQuotes))
  {
    hide Expand;
    BodyStart(s[1..]);
    ControlPieceSwallows(s[0], AnsiCBody(s[1..]));
  }

  lemma EncodeHead(s: string)
    requires s != "" && s[0] as int < 0x80
    ensures Encode(s) != [] && Encode(s)[0] == s[0] as int
  {
    assert Encode(s) == [s[0] as int] + Encode(s[1..]);
  }

  lemma SwallowedDigitDiffers(s: string)
    requires |s| > 1 && s[0] != '\0' && SwallowsDigit(s[0]) && IsOctal(s[1])
    ensures var d := Expand(AnsiCBody(s), AnsiCQuotes); d.Some? ==> UpToNul(d.value.0) != Encode(s)
  {
    hide Expand, UpToNul, Encode, AnsiCBody;
    BodySwallows(s);
    EncodeHead(s);
    var d := Expand(AnsiCBody(s[1..])[1..], AnsiCQuotes);
    if d.Some? {
      FirstByteKept(8 * (s[0] as int) + OctalDigit(s[1]), d.value.0);
    }
  }

  lemma FirstByteKept(first: byte, more: seq<byte>)
    requires first != 0
    ensures UpToNul([first] + more) != [] && UpToNul([first] + more)[0] == first
  {
    assert ([first] + more)[0] == first;
  }

  lemma ConcatCancels(a: seq<byte>, b: seq<byte>, c: seq<byte>)
    requires a + b == a + c
    ensures b == c
  {
    assert b == (a + b)[|a|..] && c == (a + c)[|a|..];
  }

  /** Decoding the printed body gives the text back exactly when it is clean. */
  lemma AnsiCBodyRoundTrip(s: string)
    ensures Decode(AnsiCBody(s), AnsiCQuotes) == Some((Encode(s), true)) <==> AnsiCClean(s)
  {
    EncodeHasNul(s);
    if AnsiCClean(s) {
      CleanBodyExpands(s);
    } else if '\0' !in s {
      UncleanBodyDiffers(s);
    }
  }

  lemma {:induction false} BodyCloses(s: string, rest: string)
    ensures CloseQuote(AnsiCBody(s) + "'" + rest) == Some(|AnsiCBody(s)|)
  {
    var t := AnsiCBody(s) + "'" + rest;
    if s == "" {
      assert t[0] == '\'';
    } else {
      var piece, more := AnsiCPiece(s[0]), AnsiCBody(s[1..]) + "'" + rest;
      BodyCloses(s[1..], rest);
      assert t == piece + more;
      PieceSkipped(s[0], more);
    }
  }

  // Facts about texts alone, kept apart from the scanners that use them.

  lemma DropOne(a: char, more: string)
    ensures ([a] + more)[0] == a && ([a] + more)[1..] == more
  {
  }

  lemma DropPair(a: char, b: char, more: string)
    ensures var t := [a, b] + more; t[0] == a && t[1] == b && t[2..] == more && t[1..][0] == b && t[1..][1..] == more
  {
    var t := [a, b] + more;
    assert t[1..] == [b] + more;
  }

  lemma BodyAndQuote(body: string)
    ensures (body + "'")[..|body|] == body && (body + "'")[|body| + 1..] == ""
  {
  }

  lemma PairSkipped(c: char, more: string)
    requires CloseQuote(more).Some?
    ensures CloseQuote(['\\', c] + more) == Some(2 + CloseQuote(more).value)
  {
    DropPair('\\', c, more);
  }

  lemma PlainSkipped(c: char, more: string)
    requires CloseQuote(more).Some? && c != '\\' && c != '\''
    ensures CloseQuote([c] + more) == Some(1 + CloseQuote(more).value)
  {
    DropOne(c, more);
  }

  lemma Unpack(a: char, s: string, more: string)
    requires |s| == 3
    ensures [a] + s + more == [a, s[0]] + ([s[1]] + ([s[2]] + more))
  {
  }

  lemma OctalSkipped(digits: string, more: string)
    requires |digits| == 3 && forall i :: 0 <= i < 3 ==> IsOctal(digits[i])
    requires CloseQuote(more).Some?
    ensures CloseQuote(['\\'] + digits + more) == Shift(4, CloseQuote(more))
  {
    hide CloseQuote;
    PlainSkipped(digits[2], more);
    PlainSkipped(digits[1], [digits[2]] + more);
    PairSkipped(digits[0], [digits[1]] + ([digits[2]] + more));
    Unpack('\\', digits, more);
  }

  lemma PieceSkipped(c: char, more: string)
    requires CloseQuote(more).Some?
    ensures CloseQuote(AnsiCPiece(c) + more) == Shift(|AnsiCPiece(c)|, CloseQuote(more))
  {
    hide CloseQuote;
    if AnsiCLetter(c).Some? {
      PairSkipped(AnsiCLetter(c).value, more);
    } else if NeedsAnsiCQuoting(c) {
      OctalSkipped(Octal3(c as int), more);
    } else {
      PlainSkipped(c, more);
    }
  }

  lemma DollarSingleReads(body: string)
    requires CloseQuote(body + "'") == Some(|body|)
    ensures var d := Decode(body, AnsiCQuotes);
            ReadUnquoted("$'" + body + "'") == if d.Some? then Some(d.value.0) else None
  {
    hide Decode, CloseQuote, ReadDollarSingle;
    var rest := body + "'";
    Reassociate("$'", body, "'");
    DropPair('$', '\'', rest);
    assert ReadUnquoted("$'" + rest) == ReadDollarSingle(rest);
    ReadDollarSingleWhole(body);
  }

  lemma ReadDollarSingleWhole(body: string)
    requires CloseQuote(body + "'") == Some(|body|)
    ensures var d := Decode(body, AnsiCQuotes);
            ReadDollarSingle(body + "'") == if d.Some? then Some(d.value.0) else None
  {
    hide Decode, CloseQuote;
    BodyAndQuote(body);
    assert ReadUnquoted("") == Some([]);
    var d := Decode(body, AnsiCQuotes);
    if d.Some? {
      assert d.value.0 + [] == d.value.0;
    }
  }

  lemma AnsiCQuotedReadsBack(s: string)
    ensures ReadUnquoted(AnsiCQuoted(s)) == Some(Encode(s)) <==> AnsiCClean(s)
  {
    var body := AnsiCBody(s);
    BodyCloses(s, "");
    assert body + "'" + "" == body + "'";
    DollarSingleReads(body);
    AnsiCBodyRoundTrip(s);
    NeverStops(body);
  }

  lemma {:induction false} NeverStops(s: string)
    ensures Expand(s, AnsiCQuotes).Some? ==> Expand(s, AnsiCQuotes).value.1
    decreases |s|
  {
    if s != "" && s[0] != '\\' {
      NeverStops(s[1..]);
    } else if |s| > 1 {
      match Escape(s[1..], AnsiCQuotes)
      case Emit(_, rest) => NeverStops(rest);
      case Stop => StopIsEcho(s[1..], AnsiCQuotes);
      case Overflow =>
    }
  }

  // ----- The quoting promise -----

  /** What a caller can check beforehand: no octal escape swallows a digit and no NUL is cut
      off; and a newline let through on request is actually inside quotes. */
  predicate Expressible(s: string, o: QuoteOptions) {
    if UsesAnsiC(s, o) then AnsiCClean(s)
    else '\n' in s ==> UsesDefaultQuotes(s, o) && !o.preferredMode.BackslashEscape?
  }

  /** The quoted text is read as one word with no expansions, and removing the quotes gives the
      original text, exactly when the text is expressible. */
  lemma QuoteReadsBack(s: string, o: QuoteOptions)
    ensures ReadUnquoted(Quote(s, o)) == Some(Encode(s)) <==> Expressible(s, o)
  {
    hide ReadUnquoted, Encode, AnsiCClean;
    if UsesAnsiC(s, o) {
      AnsiCQuotedReadsBack(s);
    } else {
      BackslashReadsBack(s);
      SingleQuotedReadsBack(s);
      DoubleQuotedReadsBack(s);
      if !UsesDefaultQuotes(s, o) {
        NothingEscaped(s);
      }
    }
  }

  lemma QuoteNonEmpty(s: string, o: QuoteOptions)
    ensures Quote(s, o) != ""
  {
    if s != "" {
      assert FlatMap(BackslashPiece, s) == BackslashPiece(s[0]) + FlatMap(BackslashPiece, s[1..]);
      SingleQuotedReadsBack(s);
      EncodeLength(s);
      assert ReadUnquoted("") == Some([]);
      assert SingleQuoted(s) != "";
    }
  }

  /** The two public entry points, in every mode: exactly the texts without an octal-printed
      control character before a digit and without NUL survive. */
  lemma ForceQuoteReadsBack(s: string, mode: QuoteMode)
    ensures ReadUnquoted(ForceQuote(s, mode)) == Some(Encode(s)) <==> AnsiCClean(s)
    ensures ReadUnquoted(QuoteIfNeeded(s, mode)) == Some(Encode(s)) <==> AnsiCClean(s)
    ensures ForceQuote(s, mode) != "" && QuoteIfNeeded(s, mode) != ""
  {
    hide ReadUnquoted, Encode, Quote;
    var always, ifNeeded := QuoteOptions(true, mode, false), QuoteOptions(false, mode, false);
    QuoteReadsBack(s, always);
    QuoteReadsBack(s, ifNeeded);
    QuoteNonEmpty(s, always);
    QuoteNonEmpty(s, ifNeeded);
    if !UsesAnsiC(s, always) {
      assert forall i :: 0 <= i < |s| ==> !NeedsAnsiCQuoting(s[i]);
      assert AnsiCClean(s) && '\n' !in s;
    }
  }

  /** A text that no mode carries: its control character swallows the digit. */
  lemma DigitSwallowed(mode: QuoteMode)
    ensures var s := ['\U{1}', '1'];
            && ReadUnquoted(ForceQuote(s, mode)) != Some(Encode(s))
            && ReadUnquoted(QuoteIfNeeded(s, mode)) != Some(Encode(s))
  {
    var s := ['\U{1}', '1'];
    hide ForceQuote, QuoteIfNeeded, ReadUnquoted, Encode;
    ForceQuoteReadsBack(s, mode);
    assert SwallowsDigit(s[0]) && IsOctal(s[1]);
  }

  /** What the promise leaves out: the first character of a text that starts with `#` or `~`
      stays bare, where it begins a comment or a tilde expansion, exactly when no quotes were
      thought necessary or backslashes were asked for. */
  lemma BareStart(s: string, o: QuoteOptions)
    requires s != "" && (s[0] == '#' || s[0] == '~')
    ensures Quote(s, o)[0] == s[0]
            <==> !UsesAnsiC(s, o) && (!UsesDefaultQuotes(s, o) || o.preferredMode.BackslashEscape?)
  {
    assert FlatMap(BackslashPiece, s) == BackslashPiece(s[0]) + FlatMap(BackslashPiece, s[1..]);
    assert SplitAtQuotes(s)[0] != "";
    assert AnsiCQuoted(s)[0] == '$' && DoubleQuoted(s)[0] == '"' && SingleQuoted(s)[0] == '\'';
    QuoteNonEmpty(s, o);
  }
}
