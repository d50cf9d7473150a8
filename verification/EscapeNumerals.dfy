/** The numeric escapes: every byte and every character can be written with them and is decoded
    to itself, whatever surrounds it. */
module EscapeNumerals {
  import opened Numerals
  import opened Utf8
  import opened Wrappers
  import opened Escapes = Escape

  // ----- Digits -----

  function DigitOf(d: nat): (c: char)
    requires d < 16
    ensures IsHex(c) && HexDigit(c) == d
    ensures d < 8 ==> IsOctal(c) && OctalDigit(c) == d
  {
    if d < 10 then '0' + d as char else 'a' + (d - 10) as char
  }

  /** A number in exactly so many digits. */
  function Digits(n: nat, base: nat, width: nat): (s: string)
    requires 2 <= base <= 16
    ensures |s| == width
    decreases width
  {
    if width == 0 then "" else Digits(n / base, base, width - 1) + [DigitOf(n % base)]
  }

  lemma {:induction false} HexDigitsRead(n: nat, width: nat)
    requires n < Pow(16, width)
    ensures forall i :: 0 <= i < width ==> IsHex(Digits(n, 16, width)[i])
    ensures HexValue(Digits(n, 16, width)) == n
  {
    if width > 0 {
      HexDigitsRead(n / 16, width - 1);
      var s := Digits(n, 16, width);
      assert s[..width - 1] == Digits(n / 16, 16, width - 1) && s[width - 1] == DigitOf(n % 16);
    }
  }

  lemma {:induction false} OctalDigitsRead(n: nat, width: nat)
    requires n < Pow(8, width)
    ensures forall i :: 0 <= i < width ==> IsOctal(Digits(n, 8, width)[i])
    ensures OctalValue(Digits(n, 8, width)) == n
  {
    if width > 0 {
      OctalDigitsRead(n / 8, width - 1);
      var s := Digits(n, 8, width);
      assert s[..width - 1] == Digits(n / 8, 8, width - 1) && s[width - 1] == DigitOf(n % 8);
    }
  }

  lemma {:induction false} TakeAllHex(digits: string, rest: string)
    requires forall i :: 0 <= i < |digits| ==> IsHex(digits[i])
    ensures TakeHex(digits + rest, |digits|) == digits && (digits + rest)[|digits|..] == rest
  {
    if digits != "" {
      assert (digits + rest)[1..] == digits[1..] + rest;
      TakeAllHex(digits[1..], rest);
    }
  }

  lemma {:induction false} TakeAllOctal(digits: string, rest: string)
    requires forall i :: 0 <= i < |digits| ==> IsOctal(digits[i])
    ensures TakeOctal(digits + rest, |digits|) == digits && (digits + rest)[|digits|..] == rest
  {
    if digits != "" {
      assert (digits + rest)[1..] == digits[1..] + rest;
      TakeAllOctal(digits[1..], rest);
    }
  }

  // ----- Characters as \U -----

  function UnicodePiece(c: char): string { ['\\', 'U'] + Digits(c as int, 16, 8) }

  function UnicodeBody(s: string): string {
    if s == "" then "" else UnicodePiece(s[0]) + UnicodeBody(s[1..])
  }

  lemma EightHexDigits()
    ensures Pow(16, 8) == 0x1_0000_0000
  {
    assert Pow(16, 4) == 0x1_0000;
  }

  lemma UnicodeStepReads(c: char, rest: string)
    ensures UnicodeStep('U', Digits(c as int, 16, 8) + rest, 8) == Emit(EncodeChar(c), rest)
  {
    hide EncodeChar, Digits, HexValue;
    EightHexDigits();
    HexDigitsRead(c as int, 8);
    TakeAllHex(Digits(c as int, 16, 8), rest);
  }

  lemma EscapeU(s: string, mode: Mode)
    ensures Escapes.Escape(['U'] + s, mode) == UnicodeStep('U', s, 8)
  {
    hide UnicodeStep;
    assert (['U'] + s)[1..] == s;
  }

  lemma ExpandEscape(escape: string, mode: Mode, bytes: seq<byte>, rest: string)
    requires escape != "" && Escapes.Escape(escape, mode) == Emit(bytes, rest)
    ensures Expand(['\\'] + escape, mode) == Prepend(bytes, Expand(rest, mode))
  {
    hide Escapes.Escape;
    assert (['\\'] + escape)[1..] == escape;
  }

  lemma {:induction false} UnicodeBodyExpands(s: string, mode: Mode)
    ensures Expand(UnicodeBody(s), mode) == Some((Encode(s), true))
  {
    hide EncodeChar, Digits, Escapes.Escape, UnicodeStep, Expand;
    if s == "" {
      ExpandNothing(mode);
    } else {
      var digits, tail := Digits(s[0] as int, 16, 8), UnicodeBody(s[1..]);
      UnicodeBodyExpands(s[1..], mode);
      UnicodeStepReads(s[0], tail);
      EscapeU(digits + tail, mode);
      ExpandEscape(['U'] + (digits + tail), mode, EncodeChar(s[0]), tail);
      assert UnicodeBody(s) == ['\\'] + (['U'] + (digits + tail));
    }
  }

  lemma ExpandNothing(mode: Mode)
    ensures Expand("", mode) == Some(([], true))
  {
  }

  /** Any text written as \U escapes decodes to its UTF-8 bytes, in both modes, up to the first
      NUL in ANSI-C quotes. */
  lemma UnicodeEscapesDecode(s: string, mode: Mode)
    ensures Decode(UnicodeBody(s), mode) == Some((if mode.AnsiCQuotes? then UpToNul(Encode(s)) else Encode(s), true))
  {
    UnicodeBodyExpands(s, mode);
  }

  // ----- Bytes as \x and as \0 -----

  function HexPiece(b: byte): string { ['\\', 'x'] + Digits(b, 16, 2) }

  function HexBody(bytes: seq<byte>): string {
    if bytes == [] then "" else HexPiece(bytes[0]) + HexBody(bytes[1..])
  }

  function OctalPiece(b: byte): string { ['\\', '0'] + Digits(b, 8, 3) }

  function OctalBody(bytes: seq<byte>): string {
    if bytes == [] then "" else OctalPiece(bytes[0]) + OctalBody(bytes[1..])
  }

  lemma EscapeX(s: string, mode: Mode)
    ensures Escapes.Escape(['x'] + s, mode) == HexStep(ScanHex(s, mode, false, false, ""))
  {
    hide HexStep, ScanHex;
    assert (['x'] + s)[1..] == s;
  }

  lemma EscapeOctal(s: string, mode: Mode)
    ensures Escapes.Escape(['0'] + s, mode) == OctalStep(TakeOctal(s, 3), s[|TakeOctal(s, 3)|..])
  {
    hide OctalStep, TakeOctal;
    assert (['0'] + s)[1..] == s;
  }

  /** The scan stops at the backslash of the next escape, or at the end. */
  lemma ScanTwo(h: char, l: char, rest: string, mode: Mode)
    requires IsHex(h) && IsHex(l) && (rest != "" ==> rest[0] == '\\')
    ensures ScanHex([h, l] + rest, mode, false, false, "") == Hex([h, l], false, rest)
  {
    var all := [h, l] + rest;
    assert all[1..] == [l] + rest && ([l] + rest)[1..] == rest;
    assert "" + [h] == [h] && [h] + [l] == [h, l];
    assert ScanHex(all, mode, false, false, "") == ScanHex([l] + rest, mode, false, false, [h]);
    assert ScanHex([l] + rest, mode, false, false, [h]) == ScanHex(rest, mode, false, false, [h, l]);
  }

  lemma HexStepOf(digits: string, b: byte, rest: string)
    requires digits != "" && (forall i :: 0 <= i < |digits| ==> IsHex(digits[i])) && HexValue(digits) == b
    ensures HexStep(Hex(digits, false, rest)) == Emit([b], rest)
  {
  }

  lemma OfTwo(s: string)
    requires |s| == 2
    ensures s == [s[0], s[1]]
  {
  }

  lemma ByteInHex()
    ensures Pow(16, 2) == 256
  {
  }

  lemma HexStepReads(b: byte, rest: string, mode: Mode)
    requires rest != "" ==> rest[0] == '\\'
    ensures Escapes.Escape(['x'] + (Digits(b, 16, 2) + rest), mode) == Emit([b], rest)
  {
    hide ScanHex, Escapes.Escape, HexValue;
    var digits := Digits(b, 16, 2);
    EscapeX(digits + rest, mode);
    ByteInHex();
    HexDigitsRead(b, 2);
    hide Digits, Pow;
    OfTwo(digits);
    HexStepOf(digits, b, rest);
    hide HexStep;
    ScanTwo(digits[0], digits[1], rest, mode);
  }

  lemma HexBodyStart(bytes: seq<byte>)
    ensures HexBody(bytes) != "" ==> HexBody(bytes)[0] == '\\'
  {
  }

  lemma HexBodyUnfolds(bytes: seq<byte>)
    requires bytes != []
    ensures HexBody(bytes) == ['\\'] + (['x'] + (Digits(bytes[0], 16, 2) + HexBody(bytes[1..])))
  {
    hide Digits;
  }

  lemma HexPieceExpands(b: byte, tail: string, mode: Mode)
    requires tail != "" ==> tail[0] == '\\'
    ensures Expand(['\\'] + (['x'] + (Digits(b, 16, 2) + tail)), mode) == Prepend([b], Expand(tail, mode))
  {
    hide Digits, Escapes.Escape, Expand;
    HexStepReads(b, tail, mode);
    ExpandEscape(['x'] + (Digits(b, 16, 2) + tail), mode, [b], tail);
  }

  lemma {:induction false} HexBodyExpands(bytes: seq<byte>, mode: Mode)
    ensures Expand(HexBody(bytes), mode) == Some((bytes, true))
  {
    hide Digits, Escapes.Escape, Expand;
    if bytes == [] {
      ExpandNothing(mode);
    } else {
      HexBodyExpands(bytes[1..], mode);
      HexBodyStart(bytes[1..]);
      HexBodyUnfolds(bytes);
      HexPieceExpands(bytes[0], HexBody(bytes[1..]), mode);
      assert [bytes[0]] + bytes[1..] == bytes;
    }
  }

  lemma OctalStepReads(b: byte, rest: string, mode: Mode)
    ensures Escapes.Escape(['0'] + (Digits(b, 8, 3) + rest), mode) == Emit([b], rest)
  {
    hide Escapes.Escape, OctalValue;
    var digits := Digits(b, 8, 3);
    EscapeOctal(digits + rest, mode);
    assert Pow(8, 3) == 512;
    OctalDigitsRead(b, 3);
    TakeAllOctal(digits, rest);
  }

  lemma {:induction false} OctalBodyExpands(bytes: seq<byte>, mode: Mode)
    ensures Expand(OctalBody(bytes), mode) == Some((bytes, true))
  {
    hide Digits, Escapes.Escape, Expand;
    if bytes == [] {
      ExpandNothing(mode);
    } else {
      var digits, tail := Digits(bytes[0], 8, 3), OctalBody(bytes[1..]);
      OctalBodyExpands(bytes[1..], mode);
      OctalStepReads(bytes[0], tail, mode);
      ExpandEscape(['0'] + (digits + tail), mode, [bytes[0]], tail);
      assert OctalBody(bytes) == ['\\'] + (['0'] + (digits + tail));
      assert [bytes[0]] + bytes[1..] == bytes;
    }
  }

  /** Any bytes written as two-digit \x escapes, or as three-digit \0 escapes, decode to
      themselves, up to the first zero byte in ANSI-C quotes. */
  lemma ByteEscapesDecode(bytes: seq<byte>, mode: Mode)
    ensures var decoded := Some((if mode.AnsiCQuotes? then UpToNul(bytes) else bytes, true));
            Decode(HexBody(bytes), mode) == decoded && Decode(OctalBody(bytes), mode) == decoded
  {
    HexBodyExpands(bytes, mode);
    OctalBodyExpands(bytes, mode);
  }
}
