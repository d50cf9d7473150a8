/** Bytes and the UTF-8 encoding of text. */
module Utf8 {
  import opened Sequences

  type byte = x: int | 0 <= x < 256

  /** The code points that are characters: all but the surrogates. */
  predicate IsScalarValue(n: int) {
    0 <= n < 0xD800 || 0xE000 <= n < 0x11_0000
  }

  function EncodeChar(c: char): (bytes: seq<byte>)
    ensures 1 <= |bytes| <= 4
    ensures c as int < 0x80 ==> bytes == [c as int]
  {
    var n := c as int;
    if n < 0x80 then [n]
    else if n < 0x800 then [0xC0 + n / 0x40, 0x80 + n % 0x40]
    else if n < 0x1_0000 then [0xE0 + n / 0x1000, 0x80 + n / 0x40 % 0x40, 0x80 + n % 0x40]
    else [0xF0 + n / 0x4_0000, 0x80 + n / 0x1000 % 0x40, 0x80 + n / 0x40 % 0x40, 0x80 + n % 0x40]
  }

  /** The bits that a byte of a sequence carries. */
  function Tail(b: byte): int { b - 0x80 }

  /** The sequences of RFC 3629, section 3: what the first byte says about the length, tails between
      0x80 and 0xBF, the code point in the bits that are left, and never more bytes than needed. */
  lemma EncodeCharIs(c: char)
    ensures var (b, n) := (EncodeChar(c), c as int);
            && (forall i :: 1 <= i < |b| ==> 0x80 <= b[i] <= 0xBF)
            && match |b|
               case 1 => b[0] < 0x80 && n == b[0]
               case 2 => 0xC0 <= b[0] <= 0xDF && n == (b[0] - 0xC0) * 0x40 + Tail(b[1]) && n >= 0x80
               case 3 =>
                 0xE0 <= b[0] <= 0xEF && n == ((b[0] - 0xE0) * 0x40 + Tail(b[1])) * 0x40 + Tail(b[2]) && n >= 0x800
               case 4 =>
                 && 0xF0 <= b[0] <= 0xF7 && n >= 0x1_0000
                 && n == (((b[0] - 0xF0) * 0x40 + Tail(b[1])) * 0x40 + Tail(b[2])) * 0x40 + Tail(b[3])
  {
    var n := c as int;
    SixBits(n);
    SixBits(n / 0x40);
    SixBits(n / 0x40 / 0x40);
    Quotients(n);
  }

  lemma SixBits(n: nat)
    ensures n == n / 0x40 * 0x40 + n % 0x40 && n % 0x40 < 0x40
  {
  }

  lemma Quotients(n: nat)
    ensures n / 0x1000 == n / 0x40 / 0x40 && n / 0x4_0000 == n / 0x40 / 0x40 / 0x40
  {
  }

  function Encode(s: string): seq<byte> {
    if s == "" then [] else EncodeChar(s[0]) + Encode(s[1..])
  }

  lemma {:induction false} EncodeConcat(s: string, t: string)
    ensures Encode(s + t) == Encode(s) + Encode(t)
  {
    if s == "" {
      assert s + t == t;
    } else {
      hide EncodeChar;
      EncodeConcat(s[1..], t);
      assert (s + t)[0] == s[0] && (s + t)[1..] == s[1..] + t;
      Reassociate(EncodeChar(s[0]), Encode(s[1..]), Encode(t));
    }
  }

  /** Text is at least as many bytes as characters, and just as many only when it is ASCII. */
  lemma {:induction false} EncodeLength(s: string)
    ensures |Encode(s)| >= |s|
    ensures |Encode(s)| == |s| <==> forall i :: 0 <= i < |s| ==> s[i] as int < 0x80
  {
    if s != "" {
      EncodeLength(s[1..]);
      assert forall i :: 1 <= i < |s| ==> s[i] == s[1..][i - 1];
    }
  }

  lemma EncodeCharHasNul(c: char)
    ensures 0 in EncodeChar(c) <==> c == '\0'
  {
  }

  lemma {:induction false} EncodeHasNul(s: string)
    ensures 0 in Encode(s) <==> '\0' in s
  {
    if s != "" {
      EncodeHasNul(s[1..]);
      EncodeCharHasNul(s[0]);
      assert s == [s[0]] + s[1..];
    }
  }
}
