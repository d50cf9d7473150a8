/** Programmable completion: finding the token under the cursor, asking for candidates, and
    substituting the completed word into patterns. Tokens are found among characters, cursors and
    insertions count bytes. */
module Completion {
  import opened Numerals
  import opened Wrappers
  import Utf8

  // ----- Tokens -----

  datatype Token = Token(text: string, start: nat) {
    function End(): nat { start + |text| }
  }

  /** What a character is in the input: a blank between tokens, part of a token of delimiters, or
      part of a word. */
  datatype Class = Blank | Punctuation | Letter

  predicate IsAsciiWhitespace(c: char) {
    c == ' ' || c == '\t' || c == '\n' || c as int == 0x0C || c == '\r'
  }

  function ClassOf(c: char, delimiters: string): Class {
    if c !in delimiters then Letter else if IsAsciiWhitespace(c) then Blank else Punctuation
  }

  /** Classifies from the left. An escaped or quoted character belongs to a word; a quote opens
      only where no token is under way; in double quotes a backslash escapes. */
  function Classes(input: string, delimiters: string, betweenTokens: bool, quote: Option<char>,
                   escaped: bool): (r: seq<Class>)
    ensures |r| == |input|
  {
    if input == "" then []
    else
      var c, rest := input[0], input[1..];
      if escaped then [Letter] + Classes(rest, delimiters, false, quote, false)
      else if quote.Some? then
        if c == '\\' && quote.value == '"' then [Letter] + Classes(rest, delimiters, false, quote, true)
        else [Letter] + Classes(rest, delimiters, false, if c == quote.value then None else quote, false)
      else if c == '\\' then [Letter] + Classes(rest, delimiters, false, None, true)
      else if betweenTokens && (c == '\'' || c == '"') then [Letter] + Classes(rest, delimiters, false, Some(c), false)
      else
        var kind := ClassOf(c, delimiters);
        [kind] + Classes(rest, delimiters, kind.Blank?, None, false)
  }

  /** Where the run of equal classes that begins at i ends. */
  function RunEnd(classes: seq<Class>, i: nat): (j: nat)
    requires i < |classes|
    ensures i < j <= |classes|
    ensures forall k :: i <= k < j ==> classes[k] == classes[i]
    ensures j < |classes| ==> classes[j] != classes[i]
    decreases |classes| - i
  {
    if i + 1 < |classes| && classes[i + 1] == classes[i] then RunEnd(classes, i + 1) else i + 1
  }

  /** The maximal runs of one class, but for the blanks. */
  function Runs(input: string, classes: seq<Class>, i: nat): seq<Token>
    requires |classes| == |input| && i <= |input|
    decreases |input| - i
  {
    if i == |input| then []
    else if classes[i].Blank? then Runs(input, classes, i + 1)
    else
      var j := RunEnd(classes, i);
      [Token(input[i..j], i)] + Runs(input, classes, j)
  }

  function Tokens(input: string, delimiters: string): seq<Token> {
    Runs(input, Classes(input, delimiters, true, None, false), 0)
  }

  /** A token under way that began at `start` and goes on to `i`, then the rest. */
  function RunsWith(input: string, classes: seq<Class>, start: Option<nat>, i: nat): seq<Token>
    requires |classes| == |input| && i <= |input| && (start.Some? ==> start.value < i)
    decreases |input| - i
  {
    if start.None? then Runs(input, classes, i)
    else if i < |input| && classes[i] == classes[i - 1] then RunsWith(input, classes, start, i + 1)
    else [Token(input[start.value..i], start.value)] + Runs(input, classes, i)
  }

  lemma {:induction false} RunsWithIsRuns(input: string, classes: seq<Class>, start: nat, i: nat)
    requires |classes| == |input| && start < i <= |input| && !classes[start].Blank?
    requires forall k :: start <= k < i ==> classes[k] == classes[start]
    ensures RunsWith(input, classes, Some(start), i) == Runs(input, classes, start)
    decreases |input| - i
  {
    if i < |input| && classes[i] == classes[i - 1] {
      RunsWithIsRuns(input, classes, start, i + 1);
    } else {
      RunEndIs(classes, start, i);
    }
  }

  lemma RunEndIs(classes: seq<Class>, i: nat, j: nat)
    requires i < j <= |classes| && forall k :: i <= k < j ==> classes[k] == classes[i]
    requires j < |classes| ==> classes[j] != classes[i]
    ensures RunEnd(classes, i) == j
  {
  }

  /** One character of the tokenizer, in terms of its class. */
  lemma TokenStep(input: string, classes: seq<Class>, start: Option<nat>, i: nat)
    requires |classes| == |input| && i < |input| && (start.Some? ==> start.value < i)
    ensures classes[i].Blank? && start.None? ==>
              RunsWith(input, classes, start, i) == RunsWith(input, classes, None, i + 1)
    ensures !classes[i].Blank? && start.None? ==>
              RunsWith(input, classes, start, i) == RunsWith(input, classes, Some(i), i + 1)
    ensures start.Some? && classes[i] == classes[i - 1] ==>
              RunsWith(input, classes, start, i) == RunsWith(input, classes, start, i + 1)
    ensures start.Some? && classes[i] != classes[i - 1] ==>
              RunsWith(input, classes, start, i)
              == [Token(input[start.value..i], start.value)]
                 + RunsWith(input, classes, if classes[i].Blank? then None else Some(i), i + 1)
  {
    if !classes[i].Blank? {
      RunsWithIsRuns(input, classes, i, i + 1);
    }
  }

  /** The classes from i on are what the scanner's state there predicts. */
  ghost predicate Scanning(input: string, delimiters: string, classes: seq<Class>, i: nat,
                           betweenTokens: bool, quote: Option<char>, escaped: bool)
    requires |classes| == |input| && i <= |input|
  {
    Classes(input[i..], delimiters, betweenTokens, quote, escaped) == classes[i..]
  }

  lemma ClassStep(input: string, delimiters: string, classes: seq<Class>, i: nat,
                  betweenTokens: bool, quote: Option<char>, escaped: bool)
    requires |classes| == |input| && i < |input|
             && Scanning(input, delimiters, classes, i, betweenTokens, quote, escaped)
    ensures var c := input[i];
            if escaped then classes[i].Letter? && Scanning(input, delimiters, classes, i + 1, false, quote, false)
            else if quote.Some? then
              if c == '\\' && quote.value == '"' then
                classes[i].Letter? && Scanning(input, delimiters, classes, i + 1, false, quote, true)
              else
                classes[i].Letter?
                && Scanning(input, delimiters, classes, i + 1, false, if c == quote.value then None else quote, false)
            else if c == '\\' then classes[i].Letter? && Scanning(input, delimiters, classes, i + 1, false, None, true)
            else if betweenTokens && (c == '\'' || c == '"') then
              classes[i].Letter? && Scanning(input, delimiters, classes, i + 1, false, Some(c), false)
            else
              classes[i] == ClassOf(c, delimiters)
              && Scanning(input, delimiters, classes, i + 1, classes[i].Blank?, None, false)
  {
    assert input[i..][0] == input[i] && input[i..][1..] == input[i + 1..];
    assert classes[i..][0] == classes[i] && classes[i..][1..] == classes[i + 1..];
  }

  method SimpleTokenizeByDelimiters(input: string, delimiters: string) returns (tokens: seq<Token>)
    ensures tokens == Tokens(input, delimiters)
  {
    hide Classes, Runs, RunsWith, Scanning, ClassOf;
    tokens := [];
    var wordStart: Option<nat> := None;
    var wordIsDelimiters := false;
    var quoteChar: Option<char> := None;
    var escaped := false;
    ghost var classes := Classes(input, delimiters, true, None, false);
    ScanningStarts(input, delimiters);
    for i := 0 to |input|
      invariant wordStart.Some? ==> wordStart.value < i
      invariant wordStart.None? <==> i == 0 || classes[i - 1].Blank?
      invariant wordIsDelimiters <==> i > 0 && classes[i - 1].Punctuation?
      invariant Scanning(input, delimiters, classes, i, wordStart.None?, quoteChar, escaped)
      invariant Tokens(input, delimiters) == tokens + RunsWith(input, classes, wordStart, i)
    {
      var c := input[i];
      ClassStep(input, delimiters, classes, i, wordStart.None?, quoteChar, escaped);
      TokenStep(input, classes, wordStart, i);
      ClassOfIs(c, delimiters);
      var isActiveDelimiter := false;
      if escaped {
        escaped := false;
      } else if quoteChar.Some? {
        if c == '\\' && quoteChar.value == '"' {
          escaped := true;
        } else if c == quoteChar.value {
          quoteChar := None;
        }
      } else {
        if c == '\\' {
          escaped := true;
        } else if wordStart.None? && (c == '\'' || c == '"') {
          quoteChar := Some(c);
        } else {
          isActiveDelimiter := c in delimiters;
        }
      }
      if isActiveDelimiter {
        if wordStart.Some? {
          if !wordIsDelimiters || IsAsciiWhitespace(c) {
            tokens := tokens + [Token(input[wordStart.value..i], wordStart.value)];
            wordStart := None;
            wordIsDelimiters := false;
          }
          if !IsAsciiWhitespace(c) {
            if wordStart.None? {
              wordStart := Some(i);
              wordIsDelimiters := true;
            }
          }
        } else if !IsAsciiWhitespace(c) {
          wordStart := Some(i);
          wordIsDelimiters := true;
        }
      } else {
        if wordIsDelimiters {
          if wordStart.Some? {
            tokens := tokens + [Token(input[wordStart.value..i], wordStart.value)];
            wordStart := None;
            wordIsDelimiters := false;
          }
        }
        if wordStart.None? {
          wordStart := Some(i);
        }
      }
    }
    LastToken(input, classes, wordStart);
    if wordStart.Some? {
      tokens := tokens + [Token(input[wordStart.value..], wordStart.value)];
    } else {
      assert tokens + [] == tokens;
    }
  }

  lemma ClassOfIs(c: char, delimiters: string)
    ensures ClassOf(c, delimiters) == if c !in delimiters then Letter else if IsAsciiWhitespace(c) then Blank
            else Punctuation
  {
  }

  lemma ScanningStarts(input: string, delimiters: string)
    ensures var classes := Classes(input, delimiters, true, None, false);
            && Scanning(input, delimiters, classes, 0, true, None, false)
            && Tokens(input, delimiters) == [] + RunsWith(input, classes, None, 0)
  {
    var classes := Classes(input, delimiters, true, None, false);
    assert input[0..] == input && classes[0..] == classes;
  }

  lemma LastToken(input: string, classes: seq<Class>, start: Option<nat>)
    requires |classes| == |input| && (start.Some? ==> start.value < |input|)
    ensures RunsWith(input, classes, start, |input|)
         == if start.None? then [] else [Token(input[start.value..], start.value)]
  {
    if start.Some? {
      assert input[start.value..|input|] == input[start.value..];
    }
  }

  // ----- Tokens tile the input -----

  predicate Covers(t: Token, i: nat) { t.start <= i < t.End() }

  /** A token is a non-empty piece of the input, all of one class. */
  predicate IsPiece(t: Token, input: string, classes: seq<Class>)
    requires |classes| == |input|
  {
    && t.text != "" && t.End() <= |input| && t.text == input[t.start..t.End()]
    && !classes[t.start].Blank?
    && forall k :: t.start <= k < t.End() ==> classes[k] == classes[t.start]
  }

  lemma PieceOf(input: string, classes: seq<Class>, i: nat)
    requires |classes| == |input| && i < |input| && !classes[i].Blank?
    ensures IsPiece(Token(input[i..RunEnd(classes, i)], i), input, classes)
  {
  }

  lemma {:induction false} RunsArePieces(input: string, classes: seq<Class>, i: nat)
    requires |classes| == |input| && i <= |input|
    ensures forall t :: t in Runs(input, classes, i) ==> i <= t.start && IsPiece(t, input, classes)
    decreases |input| - i
  {
    hide IsPiece;
    if i < |input| {
      if classes[i].Blank? {
        RunsArePieces(input, classes, i + 1);
      } else {
        PieceOf(input, classes, i);
        RunsArePieces(input, classes, RunEnd(classes, i));
      }
    }
  }

  /** One token before another, without overlap, and of another class if they touch. */
  predicate Precedes(t: Token, u: Token, classes: seq<Class>) {
    && t.End() <= u.start
    && (t.End() == u.start && t.start < |classes| && u.start < |classes| ==> classes[t.start] != classes[u.start])
  }

  predicate InOrder(tokens: seq<Token>, classes: seq<Class>) {
    forall a, b :: 0 <= a < b < |tokens| ==> Precedes(tokens[a], tokens[b], classes)
  }

  lemma {:induction false} RunsInOrder(input: string, classes: seq<Class>, i: nat)
    requires |classes| == |input| && i <= |input|
    ensures InOrder(Runs(input, classes, i), classes)
    decreases |input| - i
  {
    hide IsPiece, Precedes;
    if i < |input| {
      if classes[i].Blank? {
        RunsInOrder(input, classes, i + 1);
      } else {
        var j := RunEnd(classes, i);
        var t, rest := Token(input[i..j], i), Runs(input, classes, j);
        RunsInOrder(input, classes, j);
        RunsArePieces(input, classes, j);
        forall u | u in rest ensures Precedes(t, u, classes) {
          RunPrecedes(input, classes, i, u);
        }
        InOrderCons(t, rest, classes);
      }
    }
  }

  lemma RunPrecedes(input: string, classes: seq<Class>, i: nat, u: Token)
    requires |classes| == |input| && i < |input| && RunEnd(classes, i) <= u.start
    ensures Precedes(Token(input[i..RunEnd(classes, i)], i), u, classes)
  {
  }

  lemma InOrderCons(t: Token, rest: seq<Token>, classes: seq<Class>)
    requires InOrder(rest, classes) && forall u :: u in rest ==> Precedes(t, u, classes)
    ensures InOrder([t] + rest, classes)
  {
    hide Precedes;
    var all := [t] + rest;
    assert forall b :: 0 <= b < |rest| ==> rest[b] in rest && all[b + 1] == rest[b];
  }

  lemma {:induction false} RunsCover(input: string, classes: seq<Class>, i: nat, p: nat)
    requires |classes| == |input| && i <= p < |input| && !classes[p].Blank?
    ensures exists t :: t in Runs(input, classes, i) && Covers(t, p)
    decreases |input| - i
  {
    if classes[i].Blank? {
      RunsCover(input, classes, i + 1, p);
    } else {
      var j := RunEnd(classes, i);
      var first := Token(input[i..j], i);
      assert first in Runs(input, classes, i);
      if p < j {
        assert Covers(first, p);
      } else {
        RunsCover(input, classes, j, p);
      }
    }
  }

  /** The tokens tile the input: non-empty pieces of it, in order and disjoint, each of one class
      and as long as it can be; and the positions they leave out are exactly the blanks. */
  lemma TokensTile(input: string, delimiters: string)
    ensures var tokens, classes := Tokens(input, delimiters), Classes(input, delimiters, true, None, false);
            && (forall t :: t in tokens ==> IsPiece(t, input, classes))
            && InOrder(tokens, classes)
            && (forall p :: 0 <= p < |input| ==> (classes[p].Blank? <==> forall t :: t in tokens ==> !Covers(t, p)))
  {
    hide Classes, Runs;
    var classes := Classes(input, delimiters, true, None, false);
    RunsArePieces(input, classes, 0);
    RunsInOrder(input, classes, 0);
    forall p | 0 <= p < |input| && !classes[p].Blank?
      ensures exists t :: t in Tokens(input, delimiters) && Covers(t, p)
    {
      RunsCover(input, classes, 0, p);
    }
  }

  /** A blank is a whitespace character that is a delimiter; what is left out of the tokens is
      never anything else. */
  lemma {:induction false} BlanksAreWhitespaceDelimiters(input: string, delimiters: string, betweenTokens: bool,
                                                         quote: Option<char>, escaped: bool)
    ensures var classes := Classes(input, delimiters, betweenTokens, quote, escaped);
            forall p :: 0 <= p < |input| && !classes[p].Letter? ==>
              input[p] in delimiters && (classes[p].Blank? <==> IsAsciiWhitespace(input[p]))
  {
    if input != "" {
      var c, rest := input[0], input[1..];
      if escaped {
        BlanksAreWhitespaceDelimiters(rest, delimiters, false, quote, false);
      } else if quote.Some? {
        BlanksAreWhitespaceDelimiters(rest, delimiters, false, quote, true);
        BlanksAreWhitespaceDelimiters(rest, delimiters, false, if c == quote.value then None else quote, false);
      } else if c == '\\' {
        BlanksAreWhitespaceDelimiters(rest, delimiters, false, None, true);
      } else {
        BlanksAreWhitespaceDelimiters(rest, delimiters, false, Some(c), false);
        BlanksAreWhitespaceDelimiters(rest, delimiters, ClassOf(c, delimiters).Blank?, None, false);
      }
    }
  }

  // ----- Escapes and quotes hold a token together -----

  predicate AllLetters(classes: seq<Class>) {
    forall k :: 0 <= k < |classes| ==> classes[k].Letter?
  }

  lemma OneRun(input: string, classes: seq<Class>)
    requires |classes| == |input| && input != "" && AllLetters(classes)
    ensures Runs(input, classes, 0) == [Token(input, 0)]
  {
    RunEndIs(classes, 0, |input|);
    assert input[0..|input|] == input;
    assert Runs(input, classes, |input|) == [];
  }

  /** The text with a backslash before every character. */
  function Escaped(s: string): string {
    if s == "" then "" else ['\\', s[0]] + Escaped(s[1..])
  }

  lemma TwoClasses(c: char, rest: string, delimiters: string, betweenTokens: bool)
    ensures Classes(['\\', c] + rest, delimiters, betweenTokens, None, false)
         == [Letter, Letter] + Classes(rest, delimiters, false, None, false)
  {
    var all := ['\\', c] + rest;
    assert all[0] == '\\' && all[1..] == [c] + rest;
    assert ([c] + rest)[0] == c && ([c] + rest)[1..] == rest;
  }

  lemma {:induction false} EscapedLetters(s: string, delimiters: string, betweenTokens: bool)
    ensures AllLetters(Classes(Escaped(s), delimiters, betweenTokens, None, false))
  {
    if s != "" {
      TwoClasses(s[0], Escaped(s[1..]), delimiters, betweenTokens);
      EscapedLetters(s[1..], delimiters, false);
    }
  }

  lemma {:induction false} QuotedLetters(s: string, delimiters: string)
    requires '\'' !in s
    ensures AllLetters(Classes(s + ['\''], delimiters, false, Some('\''), false))
  {
    var all := s + ['\''];
    if s == "" {
      assert all[0] == '\'' && all[1..] == "";
    } else {
      assert all[0] == s[0] && all[1..] == s[1..] + ['\''];
      QuotedLetters(s[1..], delimiters);
    }
  }

  /** Whatever the delimiters, a text in which every character is escaped, or one in single
      quotes, is one token. */
  lemma EscapedOrQuotedIsOneToken(s: string, delimiters: string)
    ensures s != "" ==> Tokens(Escaped(s), delimiters) == [Token(Escaped(s), 0)]
    ensures '\'' !in s ==> Tokens(['\''] + (s + ['\'']), delimiters) == [Token(['\''] + (s + ['\'']), 0)]
  {
    if s != "" {
      EscapedLetters(s, delimiters, true);
      OneRun(Escaped(s), Classes(Escaped(s), delimiters, true, None, false));
    }
    if '\'' !in s {
      var quoted := ['\''] + (s + ['\'']);
      QuotedLetters(s, delimiters);
      assert quoted[0] == '\'' && quoted[1..] == s + ['\''];
      OneRun(quoted, Classes(quoted, delimiters, true, None, false));
    }
  }

  // ----- Byte positions -----

  /** Where a position is when bytes are counted. */
  function ByteOffset(input: string, i: nat): nat
    requires i <= |input|
  {
    |Utf8.Encode(input[..i])|
  }

  /** The bytes between two positions are the difference of their byte offsets. */
  lemma BytesBetween(input: string, i: nat, j: nat)
    requires i <= j <= |input|
    ensures ByteOffset(input, i) + |Utf8.Encode(input[i..j])| == ByteOffset(input, j)
    ensures i < j ==> ByteOffset(input, i) < ByteOffset(input, j)
  {
    Utf8.EncodeConcat(input[..i], input[i..j]);
    assert input[..i] + input[i..j] == input[..j];
    Utf8.EncodeLength(input[i..j]);
  }

  /** Where a byte position lies among the characters: 2p at the start of character p, 2p + 1 inside
      it, and one past the double length of the text behind its end. */
  function HalfPosition(input: string, cursor: nat): (h: nat)
    ensures h <= 2 * |input| + 1
  {
    if cursor == 0 then 0
    else if input == "" || cursor < |Utf8.EncodeChar(input[0])| then 1
    else 2 + HalfPosition(input[1..], cursor - |Utf8.EncodeChar(input[0])|)
  }

  lemma OffsetStep(input: string, j: nat)
    requires 0 < j <= |input|
    ensures ByteOffset(input, j) == |Utf8.EncodeChar(input[0])| + ByteOffset(input[1..], j - 1)
  {
    assert input[..j][0] == input[0] && input[..j][1..] == input[1..][..j - 1];
  }

  /** Byte positions compare with the start of a character as the halves do. */
  lemma {:induction false} HalfCompare(input: string, cursor: nat, j: nat)
    requires j <= |input|
    ensures cursor < ByteOffset(input, j) <==> HalfPosition(input, cursor) < 2 * j
    ensures cursor <= ByteOffset(input, j) <==> HalfPosition(input, cursor) <= 2 * j
    decreases j
  {
    hide Utf8.EncodeChar;
    if j == 0 {
      assert input[..0] == "";
    } else {
      OffsetStep(input, j);
      if cursor >= |Utf8.EncodeChar(input[0])| {
        HalfCompare(input[1..], cursor - |Utf8.EncodeChar(input[0])|, j - 1);
      }
    }
  }

  /** A byte position that is not between two characters; slicing there stops the program. */
  predicate InsideCharacter(input: string, cursor: nat) {
    exists p :: 0 <= p < |input| && ByteOffset(input, p) < cursor < ByteOffset(input, p + 1)
  }

  lemma InsideIsOdd(input: string, cursor: nat)
    ensures var h := HalfPosition(input, cursor);
            && (InsideCharacter(input, cursor) <==> h % 2 == 1 && h < 2 * |input|)
            && (h % 2 == 0 ==> cursor == ByteOffset(input, h / 2))
            && (h > 2 * |input| <==> cursor > ByteOffset(input, |input|))
  {
    hide HalfPosition, ByteOffset;
    var h := HalfPosition(input, cursor);
    forall j: nat | j <= |input|
      ensures cursor < ByteOffset(input, j) <==> h < 2 * j
      ensures cursor <= ByteOffset(input, j) <==> h <= 2 * j
    {
      HalfCompare(input, cursor, j);
    }
    if h % 2 == 1 && h < 2 * |input| {
      assert ByteOffset(input, h / 2) < cursor < ByteOffset(input, h / 2 + 1);
    }
  }

  /** The beginning of a text that takes n bytes, if n is not inside a character. */
  function BytePrefix(text: string, n: nat): Option<string> {
    if n == 0 then Some("")
    else if text == "" || n < |Utf8.EncodeChar(text[0])| then None
    else
      match BytePrefix(text[1..], n - |Utf8.EncodeChar(text[0])|)
      case Some(rest) => Some([text[0]] + rest)
      case None => None
  }

  lemma {:induction false} BytePrefixIs(text: string, n: nat)
    ensures match BytePrefix(text, n)
            case Some(r) => r <= text && ByteOffset(text, |r|) == n
            case None => forall j :: 0 <= j <= |text| ==> ByteOffset(text, j) != n
    decreases |text|
  {
    hide Utf8.EncodeChar;
    assert text[..0] == "";
    forall j | 0 < j <= |text|
      ensures ByteOffset(text, j) == |Utf8.EncodeChar(text[0])| + ByteOffset(text[1..], j - 1)
    {
      OffsetStep(text, j);
    }
    if n > 0 && text != "" && n >= |Utf8.EncodeChar(text[0])| {
      BytePrefixIs(text[1..], n - |Utf8.EncodeChar(text[0])|);
    }
  }

  // ----- The token under the cursor -----

  /** Where a completion goes, in bytes: the part of the token before the cursor, and the tokens
      around. */
  datatype Place = Place(insertionIndex: nat, prefix: string, tokenIndex: nat, precedingToken: Option<nat>)

  /** The first token that does not end before the cursor, or one past the last. */
  function TokenAt(tokens: seq<Token>, cursor: nat): (k: nat)
    ensures k <= |tokens|
    ensures forall a :: 0 <= a < k ==> tokens[a].End() < cursor
    ensures k < |tokens| ==> cursor <= tokens[k].End()
  {
    if tokens == [] || cursor <= tokens[0].End() then 0 else 1 + TokenAt(tokens[1..], cursor)
  }

  lemma TokenAtIs(tokens: seq<Token>, cursor: nat, k: nat)
    requires k <= |tokens| && forall a :: 0 <= a < k ==> tokens[a].End() < cursor
    requires k < |tokens| ==> cursor <= tokens[k].End()
    ensures TokenAt(tokens, cursor) == k
  {
  }

  predicate WithinToken(tokens: seq<Token>, k: nat, cursor: nat) {
    k < |tokens| && tokens[k].start <= cursor
  }

  /** The place of a cursor in front of character p. A cursor right behind a token is still in
      it. */
  predicate IsPlace(input: string, tokens: seq<Token>, p: nat, place: Place)
    requires p <= |input|
  {
    var k := TokenAt(tokens, p);
    var start := if WithinToken(tokens, k, p) then tokens[k].start else p;
    && start <= |input|
    && place == Place(ByteOffset(input, start), input[start..p], k, if k == 0 then None else Some(k - 1))
  }

  /** The loop over the tokens, by bytes. It stops the program exactly when the cursor is inside a
      character; a cursor behind the end of the input completes nothing there. */
  method LocateToken(input: string, delimiters: string, cursor: nat) returns (place: Option<Place>)
    ensures place.None? <==> InsideCharacter(input, cursor)
    ensures forall p :: 0 <= p <= |input| && cursor == ByteOffset(input, p) ==>
              place.Some? && IsPlace(input, Tokens(input, delimiters), p, place.value)
    ensures cursor > ByteOffset(input, |input|) ==>
              var n := |Tokens(input, delimiters)|;
              place == Some(Place(cursor, "", n, if n == 0 then None else Some(n - 1)))
    ensures place.Some? ==> place.value.insertionIndex + |Utf8.Encode(place.value.prefix)| == cursor
  {
    hide Tokens, IsPiece, TokenAt, Classes, InOrder, ByteOffset, HalfPosition, BytePrefix, Utf8.Encode;
    hide InsideCharacter, IsPlace;
    var tokens := SimpleTokenizeByDelimiters(input, delimiters);
    ghost var h := HalfPosition(input, cursor);
    NoBytes();
    var preceding: Option<nat> := None;
    for i := 0 to |tokens|
      invariant preceding == if i == 0 then None else Some(i - 1)
      invariant forall a :: 0 <= a < i ==> 2 * tokens[a].End() < h
    {
      PieceAt(input, delimiters, i);
      TokenInBytes(input, tokens[i], cursor);
      var start := ByteOffset(input, tokens[i].start);
      if cursor < start {
        BetweenTokens(input, delimiters, cursor, i);
        return Some(Place(cursor, "", i, preceding));
      } else if cursor <= start + |Utf8.Encode(tokens[i].text)| {
        var prefix := BytePrefix(tokens[i].text, cursor - start);
        AtToken(input, delimiters, cursor, i, prefix);
        return if prefix.Some? then Some(Place(start, prefix.value, i, preceding)) else None;
      }
      preceding := Some(i);
    }
    BetweenTokens(input, delimiters, cursor, |tokens|);
    place := Some(Place(cursor, "", |tokens|, preceding));
  }

  /** A cursor is before a token, or not past its end, by bytes exactly when it is by halves. */
  lemma TokenInBytes(input: string, t: Token, cursor: nat)
    requires t.End() <= |input| && t.text == input[t.start..t.End()]
    ensures var h := HalfPosition(input, cursor);
            && (cursor < ByteOffset(input, t.start) <==> h < 2 * t.start)
            && (cursor <= ByteOffset(input, t.start) + |Utf8.Encode(t.text)| <==> h <= 2 * t.End())
  {
    hide Utf8.Encode, ByteOffset, HalfPosition;
    BytesBetween(input, t.start, t.End());
    HalfCompare(input, cursor, t.start);
    HalfCompare(input, cursor, t.End());
  }

  /** Characters of more than one byte are in tokens, so a cursor between tokens is not inside a
      character. */
  lemma InsideIsCovered(input: string, delimiters: string, p: nat)
    requires p < |input| && ByteOffset(input, p) + 1 < ByteOffset(input, p + 1)
    ensures exists t :: t in Tokens(input, delimiters) && Covers(t, p)
  {
    hide Tokens, Classes, Runs, Utf8.Encode;
    TokensTile(input, delimiters);
    BlanksAreWhitespaceDelimiters(input, delimiters, true, None, false);
    BytesBetween(input, p, p + 1);
    assert input[p..p + 1] == [input[p]];
    OneCharacter(input[p]);
  }

  lemma NoBytes()
    ensures Utf8.Encode("") == []
  {
  }

  lemma OneCharacter(c: char)
    ensures Utf8.Encode([c]) == Utf8.EncodeChar(c)
  {
    assert [c][1..] == "";
  }

  lemma BetweenTokens(input: string, delimiters: string, cursor: nat, i: nat)
    requires i <= |Tokens(input, delimiters)|
    requires forall a :: 0 <= a < i ==> 2 * Tokens(input, delimiters)[a].End() < HalfPosition(input, cursor)
    requires i < |Tokens(input, delimiters)| ==>
               HalfPosition(input, cursor) < 2 * Tokens(input, delimiters)[i].start
    ensures !InsideCharacter(input, cursor)
    ensures forall p :: 0 <= p <= |input| && cursor == ByteOffset(input, p) ==>
              IsPlace(input, Tokens(input, delimiters), p, Place(cursor, "", i, if i == 0 then None else Some(i - 1)))
    ensures cursor > ByteOffset(input, |input|) ==> i == |Tokens(input, delimiters)|
  {
    hide Tokens, TokenAt, ByteOffset, HalfPosition, InsideCharacter;
    var tokens, h := Tokens(input, delimiters), HalfPosition(input, cursor);
    InsideIsOdd(input, cursor);
    if i < |tokens| {
      PieceAt(input, delimiters, i);
    }
    if InsideCharacter(input, cursor) {
      InsideReached(input, delimiters, cursor, i);
    }
    forall p: nat | p <= |input| && cursor == ByteOffset(input, p)
      ensures IsPlace(input, tokens, p, Place(cursor, "", i, if i == 0 then None else Some(i - 1)))
    {
      HalfCompare(input, cursor, p);
      TokenAtIs(tokens, p, i);
      assert input[p..p] == "";
    }
  }

  /** The token that covers a position is not one of those that end before it, nor one of those
      that come after one that starts behind it. */
  lemma CoveredAt(tokens: seq<Token>, classes: seq<Class>, p: nat, i: nat, c: nat)
    requires InOrder(tokens, classes) && c < |tokens| && Covers(tokens[c], p)
    requires i <= |tokens| && forall a :: 0 <= a < i ==> tokens[a].End() <= p
    ensures i <= c && tokens[i].start <= p
  {
    assert c > i ==> Precedes(tokens[i], tokens[c], classes);
  }

  lemma PieceAt(input: string, delimiters: string, i: nat)
    requires i < |Tokens(input, delimiters)|
    ensures var t := Tokens(input, delimiters)[i];
            t.text != "" && t.End() <= |input| && t.text == input[t.start..t.End()]
  {
    hide Tokens, Classes, InOrder;
    TokensTile(input, delimiters);
    assert Tokens(input, delimiters)[i] in Tokens(input, delimiters);
  }

  lemma InsideOf(input: string, cursor: nat) returns (p: nat)
    requires InsideCharacter(input, cursor)
    ensures p < |input| && ByteOffset(input, p) + 1 < ByteOffset(input, p + 1)
    ensures HalfPosition(input, cursor) == 2 * p + 1
  {
    hide ByteOffset, HalfPosition;
    p :| p < |input| && ByteOffset(input, p) < cursor < ByteOffset(input, p + 1);
    HalfCompare(input, cursor, p);
    HalfCompare(input, cursor, p + 1);
  }

  lemma CoveringToken(input: string, delimiters: string, p: nat, i: nat)
    requires p < |input| && ByteOffset(input, p) + 1 < ByteOffset(input, p + 1)
    requires i <= |Tokens(input, delimiters)| && forall a :: 0 <= a < i ==> Tokens(input, delimiters)[a].End() <= p
    ensures i < |Tokens(input, delimiters)| && Tokens(input, delimiters)[i].start <= p
  {
    hide Tokens, Classes, ByteOffset, InOrder;
    var tokens := Tokens(input, delimiters);
    InsideIsCovered(input, delimiters, p);
    var t :| t in tokens && Covers(t, p);
    var c :| 0 <= c < |tokens| && tokens[c] == t;
    hide IsPiece;
    TokensTile(input, delimiters);
    CoveredAt(tokens, Classes(input, delimiters, true, None, false), p, i, c);
  }

  lemma InsideReached(input: string, delimiters: string, cursor: nat, i: nat)
    requires i <= |Tokens(input, delimiters)| && InsideCharacter(input, cursor)
    requires forall a :: 0 <= a < i ==> 2 * Tokens(input, delimiters)[a].End() < HalfPosition(input, cursor)
    ensures i < |Tokens(input, delimiters)| && 2 * Tokens(input, delimiters)[i].start <= HalfPosition(input, cursor)
  {
    hide Tokens, ByteOffset, HalfPosition, InsideCharacter;
    var p := InsideOf(input, cursor);
    CoveringToken(input, delimiters, p, i);
  }

  lemma PieceOffsets(input: string, t: Token, j: nat)
    requires t.End() <= |input| && t.text == input[t.start..t.End()] && j <= |t.text|
    ensures ByteOffset(input, t.start) + ByteOffset(t.text, j) == ByteOffset(input, t.start + j)
    ensures t.text[..j] == input[t.start..t.start + j]
  {
    hide Utf8.Encode;
    assert t.text[..j] == input[t.start..t.start + j];
    BytesBetween(input, t.start, t.start + j);
  }

  /** A cursor within a token cuts it, unless it is inside a character. */
  lemma PrefixUnderCursor(input: string, t: Token, cursor: nat, prefix: Option<string>)
    requires t.End() <= |input| && t.text == input[t.start..t.End()]
    requires 2 * t.start <= HalfPosition(input, cursor) <= 2 * t.End() && cursor >= ByteOffset(input, t.start)
    requires prefix == BytePrefix(t.text, cursor - ByteOffset(input, t.start))
    ensures prefix.None? <==> HalfPosition(input, cursor) % 2 == 1
    ensures prefix.Some? ==>
              && prefix.value == input[t.start..HalfPosition(input, cursor) / 2]
              && ByteOffset(input, t.start) + |Utf8.Encode(prefix.value)| == cursor
  {
    hide ByteOffset, HalfPosition, BytePrefix, Utf8.Encode;
    var h, n := HalfPosition(input, cursor), cursor - ByteOffset(input, t.start);
    BytePrefixIs(t.text, n);
    InsideIsOdd(input, cursor);
    if prefix.Some? {
      var j := |prefix.value|;
      PieceOffsets(input, t, j);
      HalfCompare(input, cursor, t.start + j);
      assert h == 2 * (t.start + j);
      BytesBetween(input, t.start, t.start + j);
    } else if h % 2 == 0 {
      PieceOffsets(input, t, h / 2 - t.start);
    }
  }

  lemma AtToken(input: string, delimiters: string, cursor: nat, i: nat, prefix: Option<string>)
    requires i < |Tokens(input, delimiters)|
    requires forall a :: 0 <= a < i ==> 2 * Tokens(input, delimiters)[a].End() < HalfPosition(input, cursor)
    requires var (t, h) := (Tokens(input, delimiters)[i], HalfPosition(input, cursor));
             && 2 * t.start <= h <= 2 * t.End() && cursor >= ByteOffset(input, t.start)
             && prefix == BytePrefix(t.text, cursor - ByteOffset(input, t.start))
    ensures prefix.None? <==> InsideCharacter(input, cursor)
    ensures cursor <= ByteOffset(input, |input|)
    ensures var start := ByteOffset(input, Tokens(input, delimiters)[i].start);
            && (prefix.Some? ==> start + |Utf8.Encode(prefix.value)| == cursor)
            && forall p :: 0 <= p <= |input| && cursor == ByteOffset(input, p) ==>
                 && prefix.Some?
                 && IsPlace(input, Tokens(input, delimiters), p,
                            Place(start, prefix.value, i, if i == 0 then None else Some(i - 1)))
  {
    hide Tokens, TokenAt, Classes, InOrder, ByteOffset, HalfPosition, InsideCharacter, BytePrefix, Utf8.Encode;
    var tokens, h := Tokens(input, delimiters), HalfPosition(input, cursor);
    PieceAt(input, delimiters, i);
    PrefixUnderCursor(input, tokens[i], cursor, prefix);
    InsideIsOdd(input, cursor);
    forall p: nat | p <= |input| && cursor == ByteOffset(input, p) ensures h == 2 * p && TokenAt(tokens, p) == i {
      HalfCompare(input, cursor, p);
      TokenAtIs(tokens, p, i);
    }
  }

  // ----- Asking for candidates -----

  const MAX_RESTARTS: nat := 10

  datatype Answer = Candidates(candidates: seq<string>) | Restart

  datatype Completions = Completions(insertionIndex: nat, deleteCount: nat, candidates: seq<string>)

  /** The first attempt from `i` on that does not ask for a restart, up to the last one made. */
  function FirstAnswer(answers: nat -> Answer, i: nat): (k: nat)
    requires i <= MAX_RESTARTS + 1
    ensures i <= k <= MAX_RESTARTS + 1
    ensures forall a :: i <= a < k ==> answers(a).Restart?
    ensures k <= MAX_RESTARTS ==> answers(k).Candidates?
    decreases MAX_RESTARTS + 1 - i
  {
    if i > MAX_RESTARTS || answers(i).Candidates? then i else FirstAnswer(answers, i + 1)
  }

  lemma FirstAnswerIs(answers: nat -> Answer, k: nat)
    requires k <= MAX_RESTARTS + 1 && forall a :: 0 <= a < k ==> answers(a).Restart?
    requires k <= MAX_RESTARTS ==> answers(k).Candidates?
    ensures FirstAnswer(answers, 0) == k
  {
  }

  /** Asks until there are candidates, but no more than eleven times; the answers of the attempts
      come from outside. When candidates come back, what is replaced is exactly the bytes from
      the insertion index to the cursor. A cursor inside a character stops the program. */
  method GetCompletions(input: string, delimiters: string, position: nat, answers: nat -> Answer)
    returns (r: Option<Completions>, attempts: nat)
    ensures r.None? <==> InsideCharacter(input, position)
    ensures r.Some? ==>
              && attempts == Min(FirstAnswer(answers, 0), MAX_RESTARTS) + 1
              && (forall a :: 0 <= a < attempts - 1 ==> answers(a).Restart?)
              && r.value.insertionIndex <= position
    ensures forall p :: 0 <= p <= |input| && position == ByteOffset(input, p) ==>
              var tokens := Tokens(input, delimiters);
              var k := TokenAt(tokens, p);
              && r.Some?
              && (if WithinToken(tokens, k, p)
                  then tokens[k].start <= |input| && r.value.insertionIndex == ByteOffset(input, tokens[k].start)
                  else r.value.insertionIndex == position)
    ensures position > ByteOffset(input, |input|) ==> r.Some? && r.value.insertionIndex == position
    ensures r.Some? ==>
              if answers(attempts - 1).Candidates?
              then
                && r.value.insertionIndex + r.value.deleteCount == position
                && r.value.candidates == answers(attempts - 1).candidates
              else attempts == MAX_RESTARTS + 1 && r.value.deleteCount == 0 && r.value.candidates == []
  {
    hide Tokens, InsideCharacter, ByteOffset, Utf8.Encode;
    var place := LocateToken(input, delimiters, position);
    attempts := 0;
    if place.None? {
      return None, 0;
    }
    var result := Restart;
    while result.Restart?
      invariant attempts <= MAX_RESTARTS + 1
      invariant if attempts == 0 then result.Restart? else result == answers(attempts - 1)
      invariant forall a :: 0 <= a < attempts - 1 ==> answers(a).Restart?
      decreases MAX_RESTARTS + 1 - attempts, result.Restart?
    {
      if attempts > MAX_RESTARTS {
        break;
      }
      result := answers(attempts);
      attempts := attempts + 1;
    }
    FirstAnswerIs(answers, if result.Restart? then MAX_RESTARTS + 1 else attempts - 1);
    var insertionIndex := place.value.insertionIndex;
    match result
    case Candidates(candidates) =>
      r := Some(Completions(insertionIndex, |Utf8.Encode(place.value.prefix)|, candidates));
    case Restart => r := Some(Completions(insertionIndex, 0, []));
  }

  /** The line, in bytes, after a candidate is put in. */
  function Accept(line: seq<Utf8.byte>, r: Completions, candidate: seq<Utf8.byte>): seq<Utf8.byte>
    requires r.insertionIndex + r.deleteCount <= |line|
  {
    line[..r.insertionIndex] + candidate + line[r.insertionIndex + r.deleteCount..]
  }

  /** A candidate that goes on where the typed part of the token ends is completed in place: what
      is missing is inserted at the cursor, and nothing before or after it changes. */
  lemma AcceptInsertsTheRest(line: seq<Utf8.byte>, r: Completions, position: nat, candidate: seq<Utf8.byte>)
    requires r.insertionIndex + r.deleteCount == position <= |line|
    requires line[r.insertionIndex..position] <= candidate
    ensures Accept(line, r, candidate) == line[..position] + candidate[r.deleteCount..] + line[position..]
  {
    var typed := line[r.insertionIndex..position];
    assert candidate == typed + candidate[r.deleteCount..];
    assert line[..position] == line[..r.insertionIndex] + typed;
  }

  // ----- Substituting the completed word -----

  /** Whether a backslash escapes the character at i. */
  predicate InEscape(pattern: string, i: nat)
    requires i <= |pattern|
  {
    i > 0 && !InEscape(pattern, i - 1) && pattern[i - 1] == '\\'
  }

  predicate IsPoint(pattern: string, i: nat)
    requires i < |pattern|
  {
    !InEscape(pattern, i) && pattern[i] == '&'
  }

  /** From i on, every ampersand that is not escaped becomes the replacement. */
  function Substituted(pattern: string, replacement: string, i: nat): string
    requires i <= |pattern|
    decreases |pattern| - i
  {
    if i == |pattern| then ""
    else (if IsPoint(pattern, i) then replacement else [pattern[i]]) + Substituted(pattern, replacement, i + 1)
  }

  lemma {:induction false} NoPoints(pattern: string, replacement: string, i: nat, j: nat)
    requires i <= j <= |pattern| && forall k :: i <= k < j ==> !IsPoint(pattern, k)
    ensures Substituted(pattern, replacement, i) == pattern[i..j] + Substituted(pattern, replacement, j)
    decreases j - i
  {
    hide IsPoint;
    if i < j {
      NoPoints(pattern, replacement, i + 1, j);
      SliceFirst(pattern, i, j, Substituted(pattern, replacement, j));
    } else {
      assert pattern[i..j] == "";
    }
  }

  lemma SliceFirst(pattern: string, i: nat, j: nat, tail: string)
    requires i < j <= |pattern|
    ensures [pattern[i]] + (pattern[i + 1..j] + tail) == pattern[i..j] + tail
  {
  }

  /** One replacement, after all those behind it. */
  lemma ReplaceStep(pattern: string, replacement: string, q: nat, e: nat)
    requires q < e <= |pattern| && IsPoint(pattern, q) && forall k :: q < k < e ==> !IsPoint(pattern, k)
    ensures var result := pattern[..e] + Substituted(pattern, replacement, e);
            result[..q] + replacement + result[q + 1..] == pattern[..q] + Substituted(pattern, replacement, q)
  {
    hide IsPoint;
    NoPoints(pattern, replacement, q + 1, e);
    var tail := Substituted(pattern, replacement, e);
    SliceAround(pattern, q, e, tail);
    assert Substituted(pattern, replacement, q) == replacement + (pattern[q + 1..e] + tail);
  }

  lemma SliceAround(pattern: string, q: nat, e: nat, tail: string)
    requires q < e <= |pattern|
    ensures (pattern[..e] + tail)[..q] == pattern[..q]
    ensures (pattern[..e] + tail)[q + 1..] == pattern[q + 1..e] + tail
  {
  }

  /** All points below n, in order. */
  ghost predicate ArePoints(pattern: string, points: seq<nat>, n: nat)
    requires n <= |pattern|
  {
    && (forall k :: 0 <= k < |points| ==> points[k] < n && IsPoint(pattern, points[k]))
    && (forall a, b :: 0 <= a < b < |points| ==> points[a] < points[b])
    && (forall i :: 0 <= i < n && IsPoint(pattern, i) ==> i in points)
  }

  lemma NoPointBetween(pattern: string, points: seq<nat>, k: nat)
    requires ArePoints(pattern, points, |pattern|) && k <= |points|
    ensures var from, to := if k == 0 then 0 else points[k - 1] + 1, if k == |points| then |pattern| else points[k];
            from <= to && forall i :: from <= i < to ==> !IsPoint(pattern, i)
  {
    hide IsPoint;
    var from, to := if k == 0 then 0 else points[k - 1] + 1, if k == |points| then |pattern| else points[k];
    assert forall j :: 0 <= j < k ==> points[j] < from;
    assert forall j :: k <= j < |points| ==> points[j] >= to;
    forall i | from <= i < to ensures !IsPoint(pattern, i) {
      assert i !in points;
    }
  }

  method InsertionPoints(pattern: string) returns (insertionPoints: seq<nat>)
    ensures ArePoints(pattern, insertionPoints, |pattern|)
  {
    hide IsPoint;
    var inEscape := false;
    insertionPoints := [];
    for i := 0 to |pattern|
      invariant inEscape == InEscape(pattern, i)
      invariant ArePoints(pattern, insertionPoints, i)
    {
      var c := pattern[i];
      PointStep(pattern, i, insertionPoints);
      if !inEscape && c == '&' {
        insertionPoints := insertionPoints + [i];
      }
      inEscape := !inEscape && c == '\\';
    }
  }

  /** The points are found from the left and replaced from the right; the replacement itself is
      never searched. */
  method ReplaceUnescapedAmpersands(pattern: string, replacement: string) returns (result: string)
    ensures result == Substituted(pattern, replacement, 0)
  {
    hide IsPoint, Substituted;
    var insertionPoints := InsertionPoints(pattern);
    result := pattern;
    var k: nat := |insertionPoints|;
    NothingBehind(pattern, replacement);
    while k > 0
      invariant 0 <= k <= |insertionPoints|
      invariant var e := if k == |insertionPoints| then |pattern| else insertionPoints[k];
                result == pattern[..e] + Substituted(pattern, replacement, e)
    {
      NoPointBetween(pattern, insertionPoints, k);
      var q := insertionPoints[k - 1];
      ReplaceStep(pattern, replacement, q, if k == |insertionPoints| then |pattern| else insertionPoints[k]);
      result := result[..q] + replacement + result[q + 1..];
      k := k - 1;
    }
    ghost var e := if |insertionPoints| == 0 then |pattern| else insertionPoints[0];
    NoPointBetween(pattern, insertionPoints, 0);
    NoPoints(pattern, replacement, 0, e);
    assert pattern[0..e] == pattern[..e];
  }

  lemma NothingBehind(pattern: string, replacement: string)
    ensures pattern == pattern[..|pattern|] + Substituted(pattern, replacement, |pattern|)
  {
  }

  lemma PointStep(pattern: string, i: nat, points: seq<nat>)
    requires i < |pattern| && ArePoints(pattern, points, i)
    ensures IsPoint(pattern, i) <==> !InEscape(pattern, i) && pattern[i] == '&'
    ensures ArePoints(pattern, if IsPoint(pattern, i) then points + [i] else points, i + 1)
  {
    NextPoints(pattern, i, points);
  }

  lemma NextPoints(pattern: string, i: nat, points: seq<nat>)
    requires i < |pattern| && ArePoints(pattern, points, i)
    ensures ArePoints(pattern, if IsPoint(pattern, i) then points + [i] else points, i + 1)
  {
    hide IsPoint;
    assert forall j :: j in points + [i] <==> j in points || j == i;
  }

  /** A pattern in which every ampersand is escaped is left alone, and replacing an ampersand by
      an ampersand changes nothing. */
  lemma {:induction false} NothingToSubstitute(pattern: string, replacement: string, i: nat)
    requires i <= |pattern|
    requires replacement == ['&'] || forall k :: i <= k < |pattern| ==> !IsPoint(pattern, k)
    ensures Substituted(pattern, replacement, i) == pattern[i..]
    decreases |pattern| - i
  {
    if i < |pattern| {
      NothingToSubstitute(pattern, replacement, i + 1);
      assert pattern[i..] == [pattern[i]] + pattern[i + 1..];
    }
  }
}
