/** The `read` builtin: collecting a line from input events and splitting it over variables. */
module ReadSplit {
  import opened Numerals
  import opened Wrappers
  import Utf8
  import WordExpansion

  // ----- Splitting a line -----

  predicate IsIfs(c: char, ifs: string) { c in ifs }

  predicate IsIfsWhitespace(c: char, ifs: string) {
    (c == ' ' || c == '\t' || c == '\n') && IsIfs(c, ifs)
  }

  function TrimStart(s: string, ifs: string): (r: string)
    ensures |r| <= |s| && r == s[|s| - |r|..]
    ensures r != "" ==> !IsIfsWhitespace(r[0], ifs)
    ensures forall i :: 0 <= i < |s| - |r| ==> IsIfsWhitespace(s[i], ifs)
  {
    if s != "" && IsIfsWhitespace(s[0], ifs) then TrimStart(s[1..], ifs) else s
  }

  function TrimEnd(s: string, ifs: string): (r: string)
    ensures |r| <= |s| && r == s[..|r|]
    ensures r != "" ==> !IsIfsWhitespace(r[|r| - 1], ifs)
    ensures forall i :: |r| <= i < |s| ==> IsIfsWhitespace(s[i], ifs)
  {
    if s != "" && IsIfsWhitespace(s[|s| - 1], ifs) then TrimEnd(s[..|s| - 1], ifs) else s
  }

  function Trim(s: string, ifs: string): string {
    TrimEnd(TrimStart(s, ifs), ifs)
  }

  /** How many characters come before the first IFS character. */
  function FieldLength(s: string, ifs: string): (n: nat)
    ensures n <= |s|
    ensures forall i :: 0 <= i < n ==> !IsIfs(s[i], ifs)
    ensures n < |s| ==> IsIfs(s[n], ifs)
  {
    if s == "" || IsIfs(s[0], ifs) then 0 else 1 + FieldLength(s[1..], ifs)
  }

  /** What stands right before the current field. */
  datatype Before = LineStart | Blank | Delimiter

  function BeforeAfter(c: char, ifs: string): Before {
    if IsIfsWhitespace(c, ifs) then Blank else Delimiter
  }

  predicate AtLimit(count: nat, limit: Option<nat>) {
    limit.Some? && count + 1 >= limit.value
  }

  /** Where the content of a field starts: after a blank, and in the last field, the rest of the
      run of IFS whitespace is skipped. */
  function Start(current: string, rest: string, ifs: string, count: nat, limit: Option<nat>,
                 before: Before): (r: string)
    ensures |r| <= |rest|
  {
    if current == "" && (before.Blank? || AtLimit(count, limit)) then TrimStart(rest, ifs) else rest
  }

  /** A field ends before the next IFS character, but the last one allowed takes all there is. */
  function Length(start: string, ifs: string, count: nat, limit: Option<nat>): (n: nat)
    ensures n <= |start|
  {
    if AtLimit(count, limit) then |start| else FieldLength(start, ifs)
  }

  /** The fields of the rest of a trimmed line, the first of them begun with `current`. A run of
      IFS whitespace is one delimiter; other IFS characters delimit each by itself. Nothing
      after a final delimiter is no field. */
  function FieldsFrom(current: string, rest: string, ifs: string, count: nat, limit: Option<nat>,
                      before: Before): seq<string>
    decreases |rest|
  {
    var start := Start(current, rest, ifs, count, limit, before);
    var n := Length(start, ifs, count, limit);
    if n == |start| then (if current + start == "" && before.Delimiter? then [] else [current + start])
    else [current + start[..n]] + FieldsFrom("", start[n + 1..], ifs, count + 1, limit, BeforeAfter(start[n], ifs))
  }

  lemma Unfold(current: string, rest: string, ifs: string, count: nat, limit: Option<nat>, before: Before)
    ensures FieldsFrom(current, rest, ifs, count, limit, before)
         == var start := Start(current, rest, ifs, count, limit, before);
            var n := Length(start, ifs, count, limit);
            if n == |start| then (if current + start == "" && before.Delimiter? then [] else [current + start])
            else
              [current + start[..n]]
              + FieldsFrom("", start[n + 1..], ifs, count + 1, limit, BeforeAfter(start[n], ifs))
  {
  }

  /** The same at the beginning of a field. */
  lemma UnfoldField(rest: string, ifs: string, count: nat, limit: Option<nat>, before: Before)
    ensures FieldsFrom("", rest, ifs, count, limit, before)
         == var start := Start("", rest, ifs, count, limit, before);
            var n := Length(start, ifs, count, limit);
            if n == |start| then (if start == "" && before.Delimiter? then [] else [start])
            else [start[..n]] + FieldsFrom("", start[n + 1..], ifs, count + 1, limit, BeforeAfter(start[n], ifs))
  {
    hide FieldsFrom;
    Unfold("", rest, ifs, count, limit, before);
    var start := Start("", rest, ifs, count, limit, before);
    var n := Length(start, ifs, count, limit);
    assert "" + start == start && "" + start[..n] == start[..n];
  }

  function SplitLine(ifs: string, line: string, limit: Option<nat>): seq<string> {
    var trimmed := Trim(line, ifs);
    if trimmed == "" then [] else FieldsFrom("", trimmed, ifs, 0, limit, LineStart)
  }

  lemma SkipStep(rest: string, ifs: string, count: nat, limit: Option<nat>, before: Before)
    requires rest != "" && IsIfsWhitespace(rest[0], ifs) && (before.Blank? || AtLimit(count, limit))
    ensures FieldsFrom("", rest, ifs, count, limit, before) == FieldsFrom("", rest[1..], ifs, count, limit, before)
  {
    hide FieldsFrom, Length;
    Unfold("", rest, ifs, count, limit, before);
    Unfold("", rest[1..], ifs, count, limit, before);
  }

  lemma CutStep(current: string, rest: string, ifs: string, count: nat, limit: Option<nat>, before: Before)
    requires rest != "" && IsIfs(rest[0], ifs) && !AtLimit(count, limit)
    requires !(current == "" && before.Blank? && IsIfsWhitespace(rest[0], ifs))
    ensures FieldsFrom(current, rest, ifs, count, limit, before)
         == [current] + FieldsFrom("", rest[1..], ifs, count + 1, limit, BeforeAfter(rest[0], ifs))
  {
    hide FieldsFrom;
    Unfold(current, rest, ifs, count, limit, before);
    assert current + rest[..0] == current;
  }

  lemma GrowText(current: string, rest: string, n: nat)
    requires 0 < n <= |rest|
    ensures current + rest[..n] == current + [rest[0]] + rest[1..][..n - 1]
    ensures rest[1..][n - 1..] == rest[n..]
    ensures n < |rest| ==> rest[1..][n - 1 + 1..] == rest[n + 1..] && rest[1..][n - 1] == rest[n]
    ensures rest[..|rest|] == rest && rest[1..][..|rest| - 1] == rest[1..]
  {
  }

  lemma GrowStep(current: string, rest: string, ifs: string, count: nat, limit: Option<nat>, before: Before)
    requires rest != ""
    requires if AtLimit(count, limit) then current == "" ==> !IsIfsWhitespace(rest[0], ifs)
             else !IsIfs(rest[0], ifs)
    ensures FieldsFrom(current, rest, ifs, count, limit, before)
         == FieldsFrom(current + [rest[0]], rest[1..], ifs, count, limit, before)
  {
    hide FieldsFrom;
    Unfold(current, rest, ifs, count, limit, before);
    Unfold(current + [rest[0]], rest[1..], ifs, count, limit, before);
    GrowText(current, rest, Length(rest, ifs, count, limit));
    GrowText(current, rest, |rest|);
  }

  lemma NothingLeft(current: string, rest: string, ifs: string, count: nat, limit: Option<nat>, before: Before)
    requires rest == ""
    ensures FieldsFrom(current, rest, ifs, count, limit, before)
         == if current == "" && before.Delimiter? then [] else [current]
  {
    assert current + rest == current;
  }

  /** What the loop's flags say about where it stands. */
  ghost predicate FlagsMean(current: string, count: nat, limit: Option<nat>, before: Before,
                            consumingWhitespaceRun: bool, prevWasNonWsDelim: bool, collectingRemainder: bool)
  {
    && (if current == ""
        then && (before.Blank? ==> consumingWhitespaceRun)
             && (consumingWhitespaceRun ==> before.Blank? || AtLimit(count, limit))
             && (prevWasNonWsDelim <==> before.Delimiter?)
             && !collectingRemainder
        else !consumingWhitespaceRun && (collectingRemainder <==> AtLimit(count, limit)))
  }

  method SplitLineByIfs(ifs: string, line: string, maxFields: Option<nat>) returns (fields: seq<string>)
    ensures fields == SplitLine(ifs, line, maxFields)
  {
    hide FieldsFrom, Trim;
    var trimmedLine := Trim(line, ifs);
    if trimmedLine == "" {
      return [];
    }
    fields := [];
    var currentField := "";
    var consumingWhitespaceRun, prevWasNonWsDelim, collectingRemainder := false, false, false;
    ghost var before := LineStart;
    ghost var all := FieldsFrom("", trimmedLine, ifs, 0, maxFields, LineStart);
    assert trimmedLine[0..] == trimmedLine && [] + all == all;
    for i := 0 to |trimmedLine|
      invariant all == fields + FieldsFrom(currentField, trimmedLine[i..], ifs, |fields|, maxFields, before)
      invariant FlagsMean(currentField, |fields|, maxFields, before,
                          consumingWhitespaceRun, prevWasNonWsDelim, collectingRemainder)
    {
      var c := trimmedLine[i];
      ghost var rest := trimmedLine[i..];
      assert rest[0] == c && rest[1..] == trimmedLine[i + 1..];
      if consumingWhitespaceRun && IsIfsWhitespace(c, ifs) {
        SkipStep(rest, ifs, |fields|, maxFields, before);
        continue;
      }
      consumingWhitespaceRun := false;
      var isDelimiter := IsIfs(c, ifs);
      var atFieldLimit := AtLimit(|fields|, maxFields);
      if !atFieldLimit && isDelimiter {
        CutStep(currentField, rest, ifs, |fields|, maxFields, before);
        before := BeforeAfter(c, ifs);
        fields := fields + [currentField];
        currentField := "";
        consumingWhitespaceRun := IsIfsWhitespace(c, ifs);
        prevWasNonWsDelim := !consumingWhitespaceRun;
      } else if atFieldLimit && !collectingRemainder && isDelimiter {
        if IsIfsWhitespace(c, ifs) {
          SkipStep(rest, ifs, |fields|, maxFields, before);
          consumingWhitespaceRun := true;
        } else {
          GrowStep(currentField, rest, ifs, |fields|, maxFields, before);
          collectingRemainder := true;
          currentField := currentField + [c];
        }
      } else {
        GrowStep(currentField, rest, ifs, |fields|, maxFields, before);
        collectingRemainder := atFieldLimit;
        currentField := currentField + [c];
        prevWasNonWsDelim := false;
      }
    }
    NothingLeft(currentField, trimmedLine[|trimmedLine|..], ifs, |fields|, maxFields, before);
    if currentField != "" || !prevWasNonWsDelim {
      fields := fields + [currentField];
    } else {
      assert fields + [] == fields;
    }
  }

  // ----- What the fields are -----

  predicate IfsFree(s: string, ifs: string) {
    forall c :: c in s ==> !IsIfs(c, ifs)
  }

  lemma {:induction false} FieldBounds(rest: string, ifs: string, count: nat, limit: Option<nat>, before: Before)
    ensures var fields := FieldsFrom("", rest, ifs, count, limit, before);
            && (limit.Some? ==> |fields| <= Max(limit.value - count, 1))
            && (forall i :: 0 <= i < |fields| - 1 ==> IfsFree(fields[i], ifs))
            && (limit.None? ==> forall f :: f in fields ==> IfsFree(f, ifs))
    decreases |rest|
  {
    hide FieldsFrom;
    UnfoldField(rest, ifs, count, limit, before);
    var start := Start("", rest, ifs, count, limit, before);
    var n := Length(start, ifs, count, limit);
    if n < |start| {
      FieldBounds(start[n + 1..], ifs, count + 1, limit, BeforeAfter(start[n], ifs));
    }
  }

  /** At most as many fields as the limit allows, never none of them with an IFS character but
      the last; without a limit not even that one. */
  lemma SplitLineBounds(ifs: string, line: string, limit: Option<nat>)
    ensures var fields := SplitLine(ifs, line, limit);
            && (limit.Some? ==> |fields| <= Max(limit.value, 1))
            && (forall i :: 0 <= i < |fields| - 1 ==> IfsFree(fields[i], ifs))
            && (limit.None? ==> forall f :: f in fields ==> IfsFree(f, ifs))
  {
    hide FieldsFrom;
    if Trim(line, ifs) != "" {
      FieldBounds(Trim(line, ifs), ifs, 0, limit, LineStart);
    }
  }

  function Content(s: string, ifs: string): string {
    if s == "" then ""
    else if IsIfs(s[0], ifs) then Content(s[1..], ifs)
    else [s[0]] + Content(s[1..], ifs)
  }

  function ContentOfEach(fields: seq<string>, ifs: string): string {
    if fields == [] then "" else Content(fields[0], ifs) + ContentOfEach(fields[1..], ifs)
  }

  lemma {:induction false} ContentConcat(s: string, t: string, ifs: string)
    ensures Content(s + t, ifs) == Content(s, ifs) + Content(t, ifs)
  {
    if s == "" {
      assert s + t == t;
    } else {
      assert (s + t)[0] == s[0] && (s + t)[1..] == s[1..] + t;
      ContentConcat(s[1..], t, ifs);
    }
  }

  lemma {:induction false} NoContent(s: string, ifs: string)
    requires forall i :: 0 <= i < |s| ==> IsIfs(s[i], ifs)
    ensures Content(s, ifs) == ""
  {
    if s != "" {
      NoContent(s[1..], ifs);
    }
  }

  lemma TrimStartContent(s: string, ifs: string)
    ensures Content(TrimStart(s, ifs), ifs) == Content(s, ifs)
  {
    var n := |s| - |TrimStart(s, ifs)|;
    assert s == s[..n] + s[n..];
    ContentConcat(s[..n], s[n..], ifs);
    NoContent(s[..n], ifs);
  }

  lemma TrimEndContent(s: string, ifs: string)
    ensures Content(TrimEnd(s, ifs), ifs) == Content(s, ifs)
  {
    var n := |TrimEnd(s, ifs)|;
    assert s == s[..n] + s[n..];
    ContentConcat(s[..n], s[n..], ifs);
    NoContent(s[n..], ifs);
  }

  lemma CutContent(s: string, n: nat, ifs: string)
    requires n < |s| && IsIfs(s[n], ifs)
    ensures Content(s, ifs) == Content(s[..n], ifs) + Content(s[n + 1..], ifs)
  {
    assert s == s[..n] + s[n..];
    ContentConcat(s[..n], s[n..], ifs);
    assert s[n..][1..] == s[n + 1..];
  }

  lemma {:induction false} FieldsKeepContent(rest: string, ifs: string, count: nat, limit: Option<nat>, before: Before)
    ensures ContentOfEach(FieldsFrom("", rest, ifs, count, limit, before), ifs) == Content(rest, ifs)
    decreases |rest|
  {
    hide FieldsFrom, Content, TrimStart, FieldLength, IsIfsWhitespace, IsIfs, BeforeAfter;
    UnfoldField(rest, ifs, count, limit, before);
    var start := Start("", rest, ifs, count, limit, before);
    var n := Length(start, ifs, count, limit);
    TrimStartContent(rest, ifs);
    if n < |start| {
      FieldsKeepContent(start[n + 1..], ifs, count + 1, limit, BeforeAfter(start[n], ifs));
      CutContent(start, n, ifs);
    } else {
      assert ContentOfEach([start], ifs) == Content(start, ifs) + "";
      NoContent("", ifs);
    }
  }

  /** The characters of the fields that are not IFS are those of the line, in order. */
  lemma SplitLineKeepsContent(ifs: string, line: string, limit: Option<nat>)
    ensures ContentOfEach(SplitLine(ifs, line, limit), ifs) == Content(line, ifs)
  {
    hide FieldsFrom, Content;
    TrimStartContent(line, ifs);
    TrimEndContent(TrimStart(line, ifs), ifs);
    FieldsKeepContent(Trim(line, ifs), ifs, 0, limit, LineStart);
    NoContent("", ifs);
  }

  /** With one variable the field is the trimmed line, and there is none when that is empty. */
  lemma OneFieldIsTheTrimmedLine(ifs: string, line: string)
    ensures var trimmed := Trim(line, ifs);
            SplitLine(ifs, line, Some(1)) == if trimmed == "" then [] else [trimmed]
  {
    var left, trimmed := TrimStart(line, ifs), Trim(line, ifs);
    if trimmed != "" {
      assert trimmed[0] == left[0];
      assert TrimStart(trimmed, ifs) == trimmed;
      assert "" + trimmed == trimmed;
    }
  }

  // ----- Agreement with word splitting -----

  function Plains(s: string): seq<WordExpansion.Item> {
    WordExpansion.PieceItems(WordExpansion.Splittable(s))
  }

  function PlainsOfEach(fields: seq<string>): (r: seq<seq<WordExpansion.Item>>)
    ensures |r| == |fields| && forall i :: 0 <= i < |r| ==> r[i] == Plains(fields[i])
  {
    seq(|fields|, i requires 0 <= i < |fields| => Plains(fields[i]))
  }

  lemma PlainsSlice(s: string, n: nat)
    requires n <= |s|
    ensures Plains(s[..n]) == Plains(s)[..n] && Plains(s[n..]) == Plains(s)[n..]
    ensures s != "" ==> Plains(s) != []
    ensures s != "" ==> Plains(s)[0] == WordExpansion.Plain(s[0])
  {
  }

  lemma {:induction false} RunIsField(s: string, ifs: string)
    ensures WordExpansion.RunLength(Plains(s), ifs) == FieldLength(s, ifs)
  {
    if s != "" {
      PlainsSlice(s, 1);
      RunIsField(s[1..], ifs);
    }
  }

  lemma WordsOfPlains(s: string, ifs: string)
    ensures var n := FieldLength(s, ifs);
            WordExpansion.Words(Plains(s), ifs)
            == if s == "" then []
               else if IsIfs(s[0], ifs) then WordExpansion.Words(Plains(s[1..]), ifs)
               else [Plains(s[..n])] + WordExpansion.Words(Plains(s[n..]), ifs)
  {
    if s != "" {
      PlainsSlice(s, 1);
      PlainsSlice(s, FieldLength(s, ifs));
      RunIsField(s, ifs);
    }
  }

  lemma {:induction false} TrimStartWords(s: string, ifs: string)
    ensures WordExpansion.Words(Plains(TrimStart(s, ifs)), ifs) == WordExpansion.Words(Plains(s), ifs)
  {
    hide Plains, WordExpansion.Words;
    if s != "" && IsIfsWhitespace(s[0], ifs) {
      WordsOfPlains(s, ifs);
      TrimStartWords(s[1..], ifs);
    }
  }

  lemma {:induction false} RunSnoc(items: seq<WordExpansion.Item>, last: WordExpansion.Item, ifs: string)
    requires WordExpansion.IsSeparator(last, ifs)
    ensures WordExpansion.RunLength(items + [last], ifs) == WordExpansion.RunLength(items, ifs)
  {
    if items != [] {
      assert (items + [last])[1..] == items[1..] + [last];
      RunSnoc(items[1..], last, ifs);
    }
  }

  lemma SliceSnoc<T>(items: seq<T>, last: T, n: nat)
    requires n <= |items|
    ensures (items + [last])[..n] == items[..n] && (items + [last])[n..] == items[n..] + [last]
  {
  }

  lemma {:induction false} WordsSnoc(items: seq<WordExpansion.Item>, last: WordExpansion.Item, ifs: string)
    requires WordExpansion.IsSeparator(last, ifs)
    ensures WordExpansion.Words(items + [last], ifs) == WordExpansion.Words(items, ifs)
    decreases |items|
  {
    var all := items + [last];
    if items == [] {
      assert all[1..] == [];
    } else if WordExpansion.IsSeparator(items[0], ifs) {
      SliceSnoc(items, last, 1);
      WordsSnoc(items[1..], last, ifs);
    } else {
      var n := WordExpansion.RunLength(items, ifs);
      RunSnoc(items, last, ifs);
      SliceSnoc(items, last, n);
      WordsSnoc(items[n..], last, ifs);
    }
  }

  lemma {:induction false} TrimEndWords(s: string, ifs: string)
    ensures WordExpansion.Words(Plains(TrimEnd(s, ifs)), ifs) == WordExpansion.Words(Plains(s), ifs)
  {
    hide WordExpansion.Words;
    if s != "" && IsIfsWhitespace(s[|s| - 1], ifs) {
      var n := |s| - 1;
      TrimEndWords(s[..n], ifs);
      WordsSnoc(Plains(s[..n]), WordExpansion.Plain(s[n]), ifs);
      assert Plains(s) == Plains(s[..n]) + [WordExpansion.Plain(s[n])];
    }
  }

  predicate OnlyWhitespace(ifs: string) {
    forall c :: c in ifs ==> c == ' ' || c == '\t' || c == '\n'
  }

  lemma PlainsCons(first: string, fields: seq<string>)
    ensures PlainsOfEach([first] + fields) == [Plains(first)] + PlainsOfEach(fields)
    ensures PlainsOfEach([first]) == [Plains(first)]
  {
    hide Plains;
  }

  /** A field, the blank after it, and the words from there on. */
  lemma FieldThenWords(start: string, n: nat, ifs: string)
    requires n == FieldLength(start, ifs) && 0 < n
    ensures WordExpansion.Words(Plains(start), ifs)
         == [Plains(start[..n])] + if n == |start| then [] else WordExpansion.Words(Plains(start[n + 1..]), ifs)
  {
    hide WordExpansion.Words, Plains;
    WordsOfPlains(start, ifs);
    WordsOfPlains(start[n..], ifs);
    if n < |start| {
      assert start[n..][1..] == start[n + 1..];
    }
  }

  /** A rest that ends in content, and begins with content unless it stands after a blank. */
  predicate ContentAhead(rest: string, ifs: string, before: Before) {
    && rest != "" && !IsIfs(rest[|rest| - 1], ifs)
    && (before.Blank? || (before.LineStart? && !IsIfs(rest[0], ifs)))
  }

  lemma StartsWithContent(rest: string, ifs: string, before: Before)
    requires OnlyWhitespace(ifs) && ContentAhead(rest, ifs, before)
    ensures var start := Start("", rest, ifs, 0, None, before);
            && start != "" && !IsIfs(start[0], ifs)
            && WordExpansion.Words(Plains(start), ifs) == WordExpansion.Words(Plains(rest), ifs)
            && !IsIfs(start[|start| - 1], ifs)
  {
    hide WordExpansion.Words, Plains, TrimStart;
    TrimStartWords(rest, ifs);
    TrimStartKeepsEnd(rest, ifs);
  }

  lemma TrimStartKeepsEnd(rest: string, ifs: string)
    requires rest != "" && !IsIfs(rest[|rest| - 1], ifs)
    ensures var start := TrimStart(rest, ifs);
            start != "" && start[|start| - 1] == rest[|rest| - 1] && !IsIfsWhitespace(start[0], ifs)
  {
    hide TrimStart;
    var start, last := TrimStart(rest, ifs), rest[|rest| - 1];
    assert start == "" ==> IsIfsWhitespace(last, ifs);
  }

  lemma BlankEndsIt(start: string, ifs: string)
    requires OnlyWhitespace(ifs) && start != "" && !IsIfs(start[0], ifs) && !IsIfs(start[|start| - 1], ifs)
    ensures var n := FieldLength(start, ifs);
            0 < n && (n < |start| ==> BeforeAfter(start[n], ifs) == Blank && ContentAhead(start[n + 1..], ifs, Blank))
  {
  }

  /** One field, and what follows it. */
  lemma FieldHead(rest: string, ifs: string, count: nat, before: Before)
    requires OnlyWhitespace(ifs) && ContentAhead(rest, ifs, before)
    ensures var start := Start("", rest, ifs, count, None, before);
            var n := FieldLength(start, ifs);
            && 0 < n <= |start|
            && FieldsFrom("", rest, ifs, count, None, before)
               == (if n == |start| then [start]
                   else [start[..n]] + FieldsFrom("", start[n + 1..], ifs, count + 1, None, Blank))
            && WordExpansion.Words(Plains(rest), ifs)
               == [Plains(start[..n])] + (if n == |start| then [] else WordExpansion.Words(Plains(start[n + 1..]), ifs))
            && (n < |start| ==> ContentAhead(start[n + 1..], ifs, Blank))
  {
    hide FieldsFrom, WordExpansion.Words, Plains, ContentAhead, OnlyWhitespace, FieldLength, IsIfs, TrimStart,
      IsIfsWhitespace, BeforeAfter;
    UnfoldField(rest, ifs, count, None, before);
    var start := Start("", rest, ifs, count, None, before);
    StartsWithContent(rest, ifs, before);
    BlankEndsIt(start, ifs);
    FieldThenWords(start, FieldLength(start, ifs), ifs);
  }

  lemma {:induction false} FieldsAreWords(rest: string, ifs: string, count: nat, before: Before)
    requires OnlyWhitespace(ifs) && ContentAhead(rest, ifs, before)
    ensures WordExpansion.Words(Plains(rest), ifs) == PlainsOfEach(FieldsFrom("", rest, ifs, count, None, before))
    decreases |rest|
  {
    hide FieldsFrom, WordExpansion.Words, Plains, PlainsOfEach, ContentAhead, OnlyWhitespace, FieldLength, Start;
    FieldHead(rest, ifs, count, before);
    var start := Start("", rest, ifs, count, None, before);
    var n := FieldLength(start, ifs);
    if n == |start| {
      assert start[..n] == start;
      PlainsCons(start, []);
    } else {
      var tail := start[n + 1..];
      FieldsAreWords(tail, ifs, count + 1, Blank);
      PlainsCons(start[..n], FieldsFrom("", tail, ifs, count + 1, None, Blank));
    }
  }

  lemma {:induction false} RegroupPlains(s: string)
    requires s != ""
    ensures WordExpansion.Regroup(Plains(s)) == [WordExpansion.Splittable(s)]
  {
    var n := |s| - 1;
    PlainsSlice(s, n);
    assert Plains(s)[n] == WordExpansion.Plain(s[n]);
    assert s == s[..n] + [s[n]];
    if n > 0 {
      RegroupPlains(s[..n]);
    }
  }

  lemma LineIsWords(ifs: string, line: string)
    requires OnlyWhitespace(ifs)
    ensures WordExpansion.Words(Plains(line), ifs) == PlainsOfEach(SplitLine(ifs, line, None))
  {
    hide FieldsFrom, WordExpansion.Words, Plains, OnlyWhitespace, TrimStart, TrimEnd, IsIfsWhitespace;
    var left, trimmed := TrimStart(line, ifs), Trim(line, ifs);
    TrimStartWords(line, ifs);
    TrimEndWords(left, ifs);
    WordsOfPlains(trimmed, ifs);
    if trimmed != "" {
      TrimmedContent(line, ifs);
      FieldsAreWords(trimmed, ifs, 0, LineStart);
    }
  }

  lemma TrimmedContent(line: string, ifs: string)
    requires OnlyWhitespace(ifs) && Trim(line, ifs) != ""
    ensures ContentAhead(Trim(line, ifs), ifs, LineStart)
  {
    hide TrimStart, TrimEnd;
    var left, trimmed := TrimStart(line, ifs), Trim(line, ifs);
    assert trimmed[0] == left[0];
  }

  /** When IFS holds only blanks and there is no limit, `read` splits a line as word expansion
      splits a splittable piece holding it. */
  lemma AgreesWithWordSplitting(ifs: string, line: string)
    requires OnlyWhitespace(ifs)
    ensures var fields := SplitLine(ifs, line, None);
            var words := WordExpansion.SplitFields([[WordExpansion.Splittable(line)]], ifs);
            |words| == |fields| && forall i :: 0 <= i < |fields| ==> words[i] == [WordExpansion.Splittable(fields[i])]
  {
    hide SplitLine, OnlyWhitespace, Plains;
    hide WordExpansion.Words, WordExpansion.SplitFields, WordExpansion.Regroup;
    LineIsWords(ifs, line);
    OnePieceSplit(line, ifs);
    var fields := SplitLine(ifs, line, None);
    forall i | 0 <= i < |fields|
      ensures WordExpansion.Regroup(Plains(fields[i])) == [WordExpansion.Splittable(fields[i])]
    {
      WordsNotEmpty(line, ifs, i);
      RegroupPlains(fields[i]);
    }
  }

  lemma OnePieceSplit(line: string, ifs: string)
    ensures WordExpansion.SplitFields([[WordExpansion.Splittable(line)]], ifs)
         == WordExpansion.RegroupAll(WordExpansion.Words(Plains(line), ifs))
  {
    hide WordExpansion.Words, WordExpansion.SplitOn, WordExpansion.Items, WordExpansion.RegroupAll;
    var f := [WordExpansion.Splittable(line)];
    WordExpansion.ItemsSingle(f[0]);
    WordExpansion.SplitIsWords(Plains(line), ifs);
    assert [f][1..] == [];
    var r := WordExpansion.SplitOn([], Plains(line), ifs);
    assert r + [] == r;
  }

  lemma WordsNotEmpty(line: string, ifs: string, i: nat)
    requires OnlyWhitespace(ifs) && i < |SplitLine(ifs, line, None)|
    requires WordExpansion.Words(Plains(line), ifs) == PlainsOfEach(SplitLine(ifs, line, None))
    ensures SplitLine(ifs, line, None)[i] != ""
  {
    hide FieldsFrom, SplitLine, WordExpansion.Words;
    WordExpansion.WordsKeepAllButSeparators(Plains(line), ifs);
    assert PlainsOfEach(SplitLine(ifs, line, None))[i] in WordExpansion.Words(Plains(line), ifs);
  }

  // ----- Splitting undoes joining -----

  lemma FieldLengthAt(s: string, n: nat, ifs: string)
    requires n <= |s| && IfsFree(s[..n], ifs) && (n < |s| ==> IsIfs(s[n], ifs))
    ensures FieldLength(s, ifs) == n
  {
    var k := FieldLength(s, ifs);
    assert forall i :: 0 <= i < n ==> s[..n][i] == s[i];
  }

  lemma JoinSlices(fields: seq<string>, d: char)
    requires |fields| > 1
    ensures var line, k := WordExpansion.Join(fields, d), |fields[0]|;
            && k < |line| && line[..k] == fields[0] && line[k] == d
            && line[k + 1..] == WordExpansion.Join(fields[1..], d)
  {
  }

  lemma ConsSlices(fields: seq<string>, n: nat)
    requires 0 < n == |fields| - 1
    ensures [fields[0]] + fields[1..] == fields
    ensures [fields[0]] + fields[1..][..n - 1] == fields[..n]
    ensures fields[1..][n - 1] == fields[n]
  {
  }

  lemma FirstJoined(fields: seq<string>, d: char, count: nat, before: Before)
    requires |fields| > 1 && IfsFree(fields[0], [d])
    requires !before.Blank? && d != ' ' && d != '\t' && d != '\n'
    ensures FieldsFrom("", WordExpansion.Join(fields, d), [d], count, None, before)
         == [fields[0]] + FieldsFrom("", WordExpansion.Join(fields[1..], d), [d], count + 1, None, Delimiter)
  {
    hide FieldsFrom, FieldLength, WordExpansion.Join;
    var line, k := WordExpansion.Join(fields, d), |fields[0]|;
    JoinSlices(fields, d);
    FieldLengthAt(line, k, [d]);
    UnfoldField(line, [d], count, None, before);
  }

  lemma {:induction false} JoinedFields(fields: seq<string>, d: char, count: nat, before: Before)
    requires fields != [] && forall f :: f in fields ==> IfsFree(f, [d])
    requires !before.Blank? && d != ' ' && d != '\t' && d != '\n'
    ensures var n := |fields| - 1;
            FieldsFrom("", WordExpansion.Join(fields, d), [d], count, None, before)
            == if fields[n] == "" && (n > 0 || before.Delimiter?) then fields[..n] else fields
    decreases |fields|
  {
    hide FieldsFrom, FieldLength, IfsFree;
    var n := |fields| - 1;
    if n > 0 {
      FirstJoined(fields, d, count, before);
      JoinedFields(fields[1..], d, count + 1, Delimiter);
      ConsSlices(fields, n);
    } else {
      var f := fields[0];
      assert fields == [f] && f[..|f|] == f;
      FieldLengthAt(f, |f|, [d]);
      UnfoldField(f, [d], count, None, before);
    }
  }

  lemma NothingToTrim(line: string, d: char)
    requires d != ' ' && d != '\t' && d != '\n'
    ensures Trim(line, [d]) == line
  {
    hide IsIfsWhitespace;
    if line != "" {
      NotBlank(line[0], d);
      assert TrimStart(line, [d]) == line;
      NotBlank(line[|line| - 1], d);
    }
  }

  lemma NotBlank(c: char, d: char)
    requires d != ' ' && d != '\t' && d != '\n'
    ensures !IsIfsWhitespace(c, [d])
  {
  }

  /** Fields free of the delimiter, joined by it, are what splitting gives back, except that an
      empty last field is lost. */
  lemma JoinedLineSplits(fields: seq<string>, d: char)
    requires fields != [] && d != ' ' && d != '\t' && d != '\n'
    requires forall f :: f in fields ==> d !in f
    ensures var n := |fields| - 1;
            SplitLine([d], WordExpansion.Join(fields, d), None) == if fields[n] == "" then fields[..n] else fields
  {
    hide FieldsFrom, Trim;
    var line := WordExpansion.Join(fields, d);
    NothingToTrim(line, d);
    if line != "" {
      JoinedFields(fields, d, 0, LineStart);
    }
  }

  // ----- From fields to variables -----

  function BuildVariableFields(line: Option<string>, ifs: string, skipSplitting: bool, variables: nat): seq<string> {
    match line
    case None => []
    case Some(text) => if skipSplitting then [text] else SplitLine(ifs, text, Some(variables))
  }

  /** The values assigned to the named variables, one each, in order. The last variable is given
      whatever fields remain, joined by spaces. */
  method AssignToNamedVariables(line: Option<string>, ifs: string, skipSplitting: bool, variables: nat)
    returns (values: seq<string>)
    ensures var fields := BuildVariableFields(line, ifs, skipSplitting, variables);
            && |values| == variables
            && (variables > 0 ==> |fields| <= variables)
            && forall i :: 0 <= i < variables ==> values[i] == if i < |fields| then fields[i] else ""
  {
    hide SplitLine;
    ghost var all := BuildVariableFields(line, ifs, skipSplitting, variables);
    var fields: seq<string> := [];
    if line.Some? {
      if skipSplitting {
        fields := [line.value];
      } else {
        SplitLineBounds(ifs, line.value, Some(variables));
        fields := SplitLineByIfs(ifs, line.value, Some(variables));
      }
    }
    values := [];
    assert all[0..] == all;
    for i := 0 to variables
      invariant |values| == i
      invariant fields == if i <= |all| then all[i..] else []
      invariant forall k :: 0 <= k < i ==> values[k] == if k < |all| then all[k] else ""
    {
      var value := "";
      if fields != [] {
        assert i < |all| && fields[0] == all[i];
        if i == variables - 1 {
          assert |fields| == 1 && |all| == i + 1 && all[i + 1..] == [];
          value := WordExpansion.Join(fields, ' ');
          fields := [];
        } else {
          assert all[i..][1..] == all[i + 1..];
          value := fields[0];
          fields := fields[1..];
        }
      }
      values := values + [value];
    }
  }

  // ----- Reading a line -----

  datatype Event = Char(c: char) | Eof | Timeout | CtrlC | CtrlD

  datatype Config = Config(delimiter: Option<char>, charLimit: Option<nat>, processEscapes: bool)

  datatype ReadResult =
    | Line(text: string)
    | EndOfInput(partial: Option<string>)
    | Interrupted
    | TimedOut(partial: Option<string>)

  const BACKSLASH := '\\'

  function Partial(line: string): Option<string> { if line == "" then None else Some(line) }

  predicate IsDelimiter(c: char, config: Config) { config.delimiter == Some(c) }

  /** The length that is compared with the character limit is the one in bytes. */
  predicate LimitReached(line: string, config: Config) {
    config.charLimit.Some? && |Utf8.Encode(line)| >= config.charLimit.value
  }

  predicate IsDropped(c: char) {
    (c as int < 0x20 || c as int == 0x7F) && c != '\t' && c != '\n' && c as int != 0x0C && c != '\r'
  }

  /** What one event does to the line under construction. */
  datatype Step = Stop(result: ReadResult) | Go(line: string, pending: bool)

  function Push(line: string, c: char, config: Config): Step {
    if LimitReached(line + [c], config) then Stop(Line(line + [c])) else Go(line + [c], false)
  }

  function ReadEvent(event: Event, line: string, pending: bool, config: Config): Step {
    match event
    case Eof => Stop(EndOfInput(Partial(line)))
    case Timeout => Stop(TimedOut(Partial(if pending then line + [BACKSLASH] else line)))
    case CtrlC => Stop(Interrupted)
    case CtrlD => Stop(if line == "" && !pending then EndOfInput(None) else Line(line))
    case Char(c) =>
      if config.processEscapes && pending then
        if IsDelimiter(c, config) then Go(line, false) else Push(line, c, config)
      else if config.processEscapes && c == BACKSLASH then Go(line, true)
      else if IsDelimiter(c, config) then Stop(Line(line))
      else if IsDropped(c) then Go(line, pending)
      else Push(line, c, config)
  }

  /** The result of reading, and how many events it took; input that is exhausted is at its end. */
  function ReadFrom(events: seq<Event>, line: string, pending: bool, config: Config): (ReadResult, nat) {
    if events == [] then (EndOfInput(Partial(line)), 0)
    else
      match ReadEvent(events[0], line, pending, config)
      case Stop(result) => (result, 1)
      case Go(line', pending') =>
        var rest := ReadFrom(events[1..], line', pending', config);
        (rest.0, rest.1 + 1)
  }

  lemma ReadStep(events: seq<Event>, i: nat, line: string, pending: bool, config: Config)
    requires i < |events|
    ensures ReadFrom(events[i..], line, pending, config)
         == match ReadEvent(events[i], line, pending, config)
            case Stop(result) => (result, 1)
            case Go(line', pending') =>
              var rest := ReadFrom(events[i + 1..], line', pending', config);
              (rest.0, rest.1 + 1)
  {
    assert events[i..][0] == events[i] && events[i..][1..] == events[i + 1..];
  }

  method ReadLineWithReader(events: seq<Event>, config: Config) returns (r: ReadResult, taken: nat)
    ensures (r, taken) == ReadFrom(events, "", false, config)
  {
    hide ReadFrom, LimitReached, IsDropped;
    var line, pendingBackslash := "", false;
    taken := 0;
    assert events[0..] == events;
    while taken < |events|
      invariant taken <= |events|
      invariant pendingBackslash ==> config.processEscapes
      invariant ReadFrom(events, "", false, config)
             == var rest := ReadFrom(events[taken..], line, pendingBackslash, config); (rest.0, rest.1 + taken)
    {
      var event := events[taken];
      ReadStep(events, taken, line, pendingBackslash, config);
      taken := taken + 1;
      match event
      case Eof =>
        return EndOfInput(Partial(line)), taken;
      case Timeout =>
        if pendingBackslash {
          line := line + [BACKSLASH];
        }
        return TimedOut(Partial(line)), taken;
      case CtrlC =>
        return Interrupted, taken;
      case CtrlD =>
        return (if line == "" && !pendingBackslash then EndOfInput(None) else Line(line)), taken;
      case Char(c) =>
        if config.processEscapes {
          if pendingBackslash {
            pendingBackslash := false;
            if IsDelimiter(c, config) {
              continue;
            }
            line := line + [c];
            if LimitReached(line, config) {
              return Line(line), taken;
            }
            continue;
          }
          if c == BACKSLASH {
            pendingBackslash := true;
            continue;
          }
        }
        if IsDelimiter(c, config) {
          return Line(line), taken;
        }
        if IsDropped(c) {
          continue;
        }
        line := line + [c];
        if LimitReached(line, config) {
          return Line(line), taken;
        }
    }
    NoEvents(events[taken..], line, pendingBackslash, config);
    r := EndOfInput(Partial(line));
  }

  lemma NoEvents(events: seq<Event>, line: string, pending: bool, config: Config)
    requires events == []
    ensures ReadFrom(events, line, pending, config) == (EndOfInput(Partial(line)), 0)
  {
  }

  /** The text with a backslash before every character. */
  function Escaped(s: string): seq<Event> {
    if s == "" then [] else [Char(BACKSLASH), Char(s[0])] + Escaped(s[1..])
  }

  function Without(s: string, d: char): string {
    if s == "" then "" else if s[0] == d then Without(s[1..], d) else [s[0]] + Without(s[1..], d)
  }

  lemma {:induction false} EscapedReads(s: string, line: string, d: char, rest: seq<Event>)
    requires d != BACKSLASH
    ensures ReadFrom(Escaped(s) + [Char(d)] + rest, line, false, Config(Some(d), None, true))
         == (Line(line + Without(s, d)), 2 * |s| + 1)
  {
    var config := Config(Some(d), None, true);
    var events := Escaped(s) + [Char(d)] + rest;
    if s == "" {
      assert events[0] == Char(d);
      assert line + "" == line;
    } else {
      var tail := Escaped(s[1..]) + [Char(d)] + rest;
      assert events == [Char(BACKSLASH), Char(s[0])] + tail;
      TwoEvents(s[0], tail, line, config);
      if s[0] == d {
        EscapedReads(s[1..], line, d, rest);
      } else {
        EscapedReads(s[1..], line + [s[0]], d, rest);
        assert line + [s[0]] + Without(s[1..], d) == line + Without(s, d);
      }
    }
  }

  lemma TwoEvents(c: char, tail: seq<Event>, line: string, config: Config)
    requires config.processEscapes && config.charLimit.None?
    ensures ReadFrom([Char(BACKSLASH), Char(c)] + tail, line, false, config)
         == var rest := ReadFrom(tail, if IsDelimiter(c, config) then line else line + [c], false, config);
            (rest.0, rest.1 + 2)
  {
    var events := [Char(BACKSLASH), Char(c)] + tail;
    assert events[0..] == events && events[2..] == tail;
    ReadStep(events, 0, line, false, config);
    ReadStep(events, 1, line, true, config);
  }

  lemma {:induction false} WithoutSame(s: string, d: char)
    ensures Without(s, d) == s <==> d !in s
    ensures |Without(s, d)| <= |s|
  {
    if s != "" {
      WithoutSame(s[1..], d);
      assert s == [s[0]] + s[1..];
    }
  }

  /** A backslash before every character protects the text, control characters included, all but
      the delimiter: that one disappears with its backslash. */
  lemma EscapedLineReadsBack(s: string, d: char, rest: seq<Event>)
    requires d != BACKSLASH
    ensures var r := ReadFrom(Escaped(s) + [Char(d)] + rest, "", false, Config(Some(d), None, true));
            && r == (Line(Without(s, d)), 2 * |s| + 1)
            && (r.0 == Line(s) <==> d !in s)
  {
    EscapedReads(s, "", d, rest);
    assert "" + Without(s, d) == Without(s, d);
    WithoutSame(s, d);
  }

  function Chars(s: string): seq<Event> {
    if s == "" then [] else [Char(s[0])] + Chars(s[1..])
  }

  function Printable(s: string): string {
    if s == "" then "" else if IsDropped(s[0]) then Printable(s[1..]) else [s[0]] + Printable(s[1..])
  }

  lemma {:induction false} RawReads(s: string, line: string, d: char, rest: seq<Event>)
    requires d !in s
    ensures ReadFrom(Chars(s) + [Char(d)] + rest, line, false, Config(Some(d), None, false))
         == (Line(line + Printable(s)), |s| + 1)
  {
    var config := Config(Some(d), None, false);
    var events := Chars(s) + [Char(d)] + rest;
    if s == "" {
      assert events[0] == Char(d);
      assert line + "" == line;
    } else {
      var tail := Chars(s[1..]) + [Char(d)] + rest;
      assert events == [Char(s[0])] + tail;
      assert events[0..] == events && events[1..] == tail;
      ReadStep(events, 0, line, false, config);
      if IsDropped(s[0]) {
        RawReads(s[1..], line, d, rest);
      } else {
        RawReads(s[1..], line + [s[0]], d, rest);
        assert line + [s[0]] + Printable(s[1..]) == line + Printable(s);
      }
    }
  }

  /** Without escapes the line is everything before the first delimiter but the control
      characters, and nothing after the delimiter is touched. */
  lemma RawLineReads(s: string, d: char, rest: seq<Event>)
    requires d !in s
    ensures ReadFrom(Chars(s) + [Char(d)] + rest, "", false, Config(Some(d), None, false))
            == (Line(Printable(s)), |s| + 1)
  {
    RawReads(s, "", d, rest);
    assert "" + Printable(s) == Printable(s);
  }

  /** Under a limit, a line short of its last character is always below it. */
  predicate BelowLimit(line: string, limit: nat) {
    line == "" || |Utf8.Encode(line[..|line| - 1])| < limit
  }

  lemma {:induction false} LimitKept(events: seq<Event>, line: string, pending: bool, config: Config)
    requires config.charLimit.Some? && |Utf8.Encode(line)| < config.charLimit.value
    requires BelowLimit(line, config.charLimit.value)
    ensures var r := ReadFrom(events, line, pending, config).0;
            r.Line? ==> BelowLimit(r.text, config.charLimit.value)
  {
    hide Utf8.Encode;
    if events != [] {
      var step := ReadEvent(events[0], line, pending, config);
      if step.Go? {
        assert step.line == line || (|step.line| > 0 && step.line[..|step.line| - 1] == line);
        LimitKept(events[1..], step.line, step.pending, config);
      } else if step.result.Line? {
        var text := step.result.text;
        assert text == line || (|text| > 0 && text[..|text| - 1] == line);
      }
    }
  }

  /** A limit of n characters: never more, exactly n when the limit ends an all-ASCII line, and
      fewer when any character but the last takes more than one byte. */
  lemma LimitCountsBytes(events: seq<Event>, config: Config)
    requires config.charLimit.Some? && config.charLimit.value > 0
    ensures var (r, limit) := (ReadFrom(events, "", false, config).0, config.charLimit.value);
            r.Line? ==>
              && |r.text| <= limit
              && (LimitReached(r.text, config) && (forall c :: c in r.text ==> c as int < 0x80) ==> |r.text| == limit)
              && ((exists i :: 0 <= i < |r.text| - 1 && r.text[i] as int >= 0x80) ==> |r.text| < limit)
  {
    assert Utf8.Encode("") == [];
    LimitKept(events, "", false, config);
    var r := ReadFrom(events, "", false, config).0;
    if r.Line? && r.text != "" {
      ByteLimit(r.text, config.charLimit.value);
    }
  }

  lemma ByteLimit(text: string, limit: nat)
    requires text != "" && BelowLimit(text, limit)
    ensures |text| <= limit
    ensures |Utf8.Encode(text)| >= limit && (forall c :: c in text ==> c as int < 0x80) ==> |text| == limit
    ensures (exists i :: 0 <= i < |text| - 1 && text[i] as int >= 0x80) ==> |text| < limit
  {
    hide Utf8.Encode;
    var front := text[..|text| - 1];
    Utf8.EncodeLength(text);
    Utf8.EncodeLength(front);
    assert forall i :: 0 <= i < |text| ==> text[i] in text;
    assert forall i :: 0 <= i < |front| ==> front[i] == text[i];
  }

  // ----- Exactly when the limit counts characters -----

  /** The characters the events would put on the line if there were no limit. */
  function KeptChars(events: seq<Event>, pending: bool, config: Config): string {
    if events == [] then ""
    else
      match ReadEvent(events[0], "", pending, config.(charLimit := None))
      case Stop(_) => ""
      case Go(added, pending') => added + KeptChars(events[1..], pending', config)
  }

  /** How many more characters a line takes until it reaches the limit; all of them if it does
      not. */
  function Needed(line: string, more: string, limit: nat): (m: nat)
    ensures m <= |more|
    decreases |more|
  {
    if more == "" then 0
    else if |Utf8.Encode(line + [more[0]])| >= limit then 1
    else 1 + Needed(line + [more[0]], more[1..], limit)
  }

  /** One event under a limit: it stops the reading at the character that reaches the limit, and
      otherwise does what it does without. */
  lemma LimitedEvent(event: Event, line: string, pending: bool, config: Config)
    requires config.charLimit.Some?
    ensures var free := ReadEvent(event, "", pending, config.(charLimit := None));
            var step := ReadEvent(event, line, pending, config);
            if free.Stop? then step.Stop?
            else if free.line == "" then step == Go(line, free.pending)
            else
              && |free.line| == 1
              && step == if LimitReached(line + free.line, config) then Stop(Line(line + free.line))
                         else Go(line + free.line, free.pending)
  {
    hide Utf8.Encode;
    assert forall c: char :: "" + [c] == [c];
  }

  lemma KeptStep(event: Event, rest: seq<Event>, pending: bool, config: Config)
    ensures var free := ReadEvent(event, "", pending, config.(charLimit := None));
            KeptChars([event] + rest, pending, config)
            == if free.Stop? then "" else free.line + KeptChars(rest, free.pending, config)
  {
    hide ReadEvent;
    assert ([event] + rest)[0] == event && ([event] + rest)[1..] == rest;
  }

  lemma ReadCons(event: Event, rest: seq<Event>, line: string, pending: bool, config: Config)
    ensures var step := ReadEvent(event, line, pending, config);
            ReadFrom([event] + rest, line, pending, config).0
            == if step.Stop? then step.result else ReadFrom(rest, step.line, step.pending, config).0
  {
    hide ReadEvent;
    assert ([event] + rest)[0] == event && ([event] + rest)[1..] == rest;
  }

  /** If the kept characters fill the limit, the line is as many of them as that takes. */
  lemma {:induction false} LimitedRead(events: seq<Event>, line: string, pending: bool, config: Config)
    requires config.charLimit.Some?
    requires |Utf8.Encode(line + KeptChars(events, pending, config))| >= config.charLimit.value > |Utf8.Encode(line)|
    ensures var kept := KeptChars(events, pending, config);
            ReadFrom(events, line, pending, config).0 == Line(line + kept[..Needed(line, kept, config.charLimit.value)])
  {
    hide Utf8.Encode, ReadEvent, ReadFrom, KeptChars, Needed;
    var limit := config.charLimit.value;
    assert line + "" == line;
    if events == [] {
      NothingKept(pending, config);
    } else {
      var event, rest := events[0], events[1..];
      assert events == [event] + rest;
      LimitedEvent(event, line, pending, config);
      KeptStep(event, rest, pending, config);
      ReadCons(event, rest, line, pending, config);
      var free := ReadEvent(event, "", pending, config.(charLimit := None));
      if !free.Stop? {
        var more := KeptChars(rest, free.pending, config);
        if free.line == "" {
          assert free.line + more == more;
          LimitedRead(rest, line, free.pending, config);
        } else {
          NeededStep(line, free.line, more, limit);
          if |Utf8.Encode(line + free.line)| < limit {
            LimitedRead(rest, line + free.line, free.pending, config);
          }
        }
      }
    }
  }

  lemma NothingKept(pending: bool, config: Config)
    ensures KeptChars([], pending, config) == ""
  {
  }

  lemma NeededStep(line: string, one: string, more: string, limit: nat)
    requires |one| == 1
    ensures var n := Needed(line + one, more, limit);
            if |Utf8.Encode(line + one)| >= limit
            then line + (one + more)[..Needed(line, one + more, limit)] == line + one
            else line + (one + more)[..Needed(line, one + more, limit)] == line + one + more[..n]
    ensures line + (one + more) == line + one + more
  {
    hide Utf8.Encode;
    var all := one + more;
    assert one == [all[0]] && all[1..] == more;
    if |Utf8.Encode(line + one)| < limit {
      var n := Needed(line + one, more, limit);
      assert all[..1 + n] == one + more[..n];
    }
  }

  predicate Ascii(s: string) {
    forall i :: 0 <= i < |s| ==> s[i] as int < 0x80
  }

  lemma {:induction false} NeededIs(line: string, more: string, limit: nat)
    requires |Utf8.Encode(line)| < limit <= |Utf8.Encode(line + more)|
    ensures var m := Needed(line, more, limit);
            && 0 < m <= |more|
            && |Utf8.Encode(line + more[..m])| >= limit && |Utf8.Encode(line + more[..m - 1])| < limit
    decreases |more|
  {
    hide Utf8.Encode;
    assert more == "" ==> line + more == line;
    var next := line + [more[0]];
    assert next + more[1..] == line + more;
    if |Utf8.Encode(next)| < limit {
      NeededIs(next, more[1..], limit);
      var m := Needed(next, more[1..], limit);
      assert line + more[..1 + m] == next + more[1..][..m];
      assert line + more[..m] == next + more[1..][..m - 1];
    } else {
      assert line + more[..1] == next && line + more[..0] == line;
    }
  }

  /** Without a limit, or with one that is not reached, an event does the same. */
  lemma UnlimitedEvent(event: Event, line: string, pending: bool, config: Config)
    requires config.charLimit.Some?
    ensures var free := ReadEvent(event, "", pending, config.(charLimit := None));
            (free.Go? && free.line != "" && LimitReached(line + free.line, config))
            || ReadEvent(event, line, pending, config) == ReadEvent(event, line, pending, config.(charLimit := None))
  {
    hide Utf8.Encode;
    assert forall c: char :: "" + [c] == [c];
  }

  lemma ReadConsPair(event: Event, rest: seq<Event>, line: string, pending: bool, config: Config)
    ensures var step := ReadEvent(event, line, pending, config);
            var read := ReadFrom([event] + rest, line, pending, config);
            if step.Stop? then read == (step.result, 1)
            else read == (ReadFrom(rest, step.line, step.pending, config).0,
                          ReadFrom(rest, step.line, step.pending, config).1 + 1)
  {
    hide ReadEvent;
    assert ([event] + rest)[0] == event && ([event] + rest)[1..] == rest;
  }

  /** If the kept characters stay below the limit, the limit changes nothing. */
  lemma {:induction false} UnlimitedRead(events: seq<Event>, line: string, pending: bool, config: Config)
    requires config.charLimit.Some?
    requires |Utf8.Encode(line + KeptChars(events, pending, config))| < config.charLimit.value
    ensures ReadFrom(events, line, pending, config) == ReadFrom(events, line, pending, config.(charLimit := None))
  {
    hide Utf8.Encode, ReadEvent, ReadFrom, KeptChars;
    var free := config.(charLimit := None);
    if events == [] {
      NoEvents(events, line, pending, config);
      NoEvents(events, line, pending, free);
    } else {
      var event, rest := events[0], events[1..];
      assert events == [event] + rest;
      KeptStep(event, rest, pending, config);
      UnlimitedEvent(event, line, pending, config);
      LimitedEvent(event, line, pending, config);
      ReadConsPair(event, rest, line, pending, config);
      ReadConsPair(event, rest, line, pending, free);
      var step := ReadEvent(event, "", pending, free);
      if !step.Stop? {
        var more := KeptChars(rest, step.pending, config);
        assert line + (step.line + more) == (line + step.line) + more;
        assert line + "" == line;
        Utf8.EncodeConcat(line + step.line, more);
        UnlimitedRead(rest, line + step.line, step.pending, config);
      }
    }
  }

  lemma FreeEvent(event: Event, line: string, pending: bool, config: Config)
    requires config.charLimit.None?
    ensures var step := ReadEvent(event, "", pending, config);
            ReadEvent(event, line, pending, config).Stop? == step.Stop?
            && (step.Go? ==> ReadEvent(event, line, pending, config) == Go(line + step.line, step.pending))
            && (ReadEvent(event, line, pending, config).Stop?
                ==> ReadEvent(event, line, pending, config).result in [Line(line), Interrupted]
                    || !ReadEvent(event, line, pending, config).result.Line?)
  {
    assert line + "" == line && forall c: char :: "" + [c] == [c];
  }

  /** Without a limit, a line that is ended holds the characters kept. */
  lemma {:induction false} KeptIsRead(events: seq<Event>, line: string, pending: bool, config: Config)
    requires config.charLimit.None?
    ensures var r := ReadFrom(events, line, pending, config).0;
            r.Line? ==> r.text == line + KeptChars(events, pending, config)
  {
    hide Utf8.Encode, ReadEvent, ReadFrom, KeptChars;
    assert config.(charLimit := None) == config;
    assert line + "" == line;
    if events == [] {
      NoEvents(events, line, pending, config);
    } else {
      var event, rest := events[0], events[1..];
      assert events == [event] + rest;
      FreeEvent(event, line, pending, config);
      KeptStep(event, rest, pending, config);
      ReadCons(event, rest, line, pending, config);
      var step := ReadEvent(event, "", pending, config);
      if step.Go? {
        KeptIsRead(rest, line + step.line, step.pending, config);
        assert line + (step.line + KeptChars(rest, step.pending, config))
            == (line + step.line) + KeptChars(rest, step.pending, config);
      }
    }
  }

  /** A limit of n on a line that would keep `kept`: it counts characters exactly when all but the
      last of the first n of them (or of all, if there are fewer) are below n bytes. */
  predicate LimitMet(text: string, kept: string, n: nat) {
    var m := Min(n, |kept|);
    && text <= kept[..m]
    && (text == kept[..m] <==> m == 0 || |Utf8.Encode(kept[..m - 1])| < n)
    && (n <= |kept| && n > 0 ==> (|text| == n <==> Ascii(kept[..n - 1])))
  }

  /** Whatever the events and the limit n: if the characters kept without it reach n bytes, the
      line has the first n characters (or all, if there are fewer) exactly when those but the last
      are below n bytes, and is shorter otherwise; if they do not, the limit changes nothing. */
  lemma LimitExactly(events: seq<Event>, config: Config)
    requires config.charLimit.Some? && config.charLimit.value > 0
    ensures var (kept, n) := (KeptChars(events, false, config), config.charLimit.value);
            var read := ReadFrom(events, "", false, config);
            if |Utf8.Encode(kept)| < n then read == ReadFrom(events, "", false, config.(charLimit := None))
            else read.0.Line? && LimitMet(read.0.text, kept, n)
  {
    hide Utf8.Encode, ReadFrom, KeptChars, Needed, LimitMet;
    var kept, n := KeptChars(events, false, config), config.charLimit.value;
    EmptyEncodes();
    assert "" + kept == kept;
    if |Utf8.Encode(kept)| < n {
      UnlimitedRead(events, "", false, config);
    } else {
      LimitedRead(events, "", false, config);
      NeededIs("", kept, n);
      var m := Needed("", kept, n);
      assert "" + kept[..m] == kept[..m] && "" + kept[..m - 1] == kept[..m - 1];
      NeededMeets(kept, n, m);
    }
  }

  lemma NeededMeets(kept: string, n: nat, m: nat)
    requires 0 < n && 0 < m <= |kept|
    requires |Utf8.Encode(kept[..m])| >= n && |Utf8.Encode(kept[..m - 1])| < n
    ensures LimitMet(kept[..m], kept, n)
  {
    hide Utf8.Encode;
    var all := Min(n, |kept|);
    Utf8.EncodeLength(kept[..m - 1]);
    assert m <= all && kept[..m] <= kept[..all];
    if m < all {
      PrefixEncodes(kept, m, all - 1);
    }
    if n <= |kept| {
      NeededOfAscii(kept, n, m);
    }
  }

  lemma PrefixEncodes(s: string, m: nat, n: nat)
    requires m <= n <= |s|
    ensures |Utf8.Encode(s[..m])| <= |Utf8.Encode(s[..n])|
  {
    hide Utf8.Encode;
    assert s[..n] == s[..m] + s[m..n];
    Utf8.EncodeConcat(s[..m], s[m..n]);
  }

  /** A limit of zero takes one character, as a limit of one does. */
  lemma {:induction false} ZeroLimitIsOne(events: seq<Event>, line: string, pending: bool, config: Config)
    ensures ReadFrom(events, line, pending, config.(charLimit := Some(0)))
         == ReadFrom(events, line, pending, config.(charLimit := Some(1)))
  {
    hide Utf8.Encode;
    if events != [] {
      forall c: char ensures |Utf8.Encode(line + [c])| >= 1 {
        Utf8.EncodeLength(line + [c]);
      }
      var step := ReadEvent(events[0], line, pending, config.(charLimit := Some(0)));
      if step.Go? {
        ZeroLimitIsOne(events[1..], step.line, step.pending, config);
      }
    }
  }

  lemma EmptyEncodes()
    ensures Utf8.Encode("") == []
  {
  }

  lemma NeededOfAscii(kept: string, n: nat, m: nat)
    requires 0 < n <= |kept| && 0 < m <= |kept|
    requires |Utf8.Encode(kept[..m])| >= n && |Utf8.Encode(kept[..m - 1])| < n
    ensures m <= n && (m == n <==> Ascii(kept[..n - 1]))
  {
    Utf8.EncodeLength(kept[..m - 1]);
    Utf8.EncodeLength(kept[..n - 1]);
    Utf8.EncodeLength(kept[..m]);
    AsciiPrefix(kept, m, n - 1);
  }

  lemma AsciiPrefix(s: string, m: nat, n: nat)
    requires m <= |s| && n <= |s|
    ensures m <= n && Ascii(s[..n]) ==> Ascii(s[..m])
  {
    assert forall i :: 0 <= i < m && i < n ==> s[..m][i] == s[..n][i];
  }

  lemma {:induction false} KeptOfChars(s: string, d: char, rest: seq<Event>, config: Config)
    requires d !in s && config.delimiter == Some(d) && !config.processEscapes
    ensures KeptChars(Chars(s) + [Char(d)] + rest, false, config) == Printable(s)
  {
    var tail := [Char(d)] + rest;
    if s == "" {
      assert Chars(s) + [Char(d)] + rest == [Char(d)] + rest;
      KeptStep(Char(d), rest, false, config);
    } else {
      var more := Chars(s[1..]) + [Char(d)] + rest;
      assert Chars(s) + [Char(d)] + rest == [Char(s[0])] + more;
      KeptOfChars(s[1..], d, rest, config);
      KeptStep(Char(s[0]), more, false, config);
      assert "" + [s[0]] == [s[0]];
    }
  }

  lemma {:induction false} KeptOfEscaped(s: string, d: char, rest: seq<Event>, config: Config)
    requires d != BACKSLASH && config.delimiter == Some(d) && config.processEscapes
    ensures KeptChars(Escaped(s) + [Char(d)] + rest, false, config) == Without(s, d)
  {
    if s == "" {
      assert Escaped(s) + [Char(d)] + rest == [Char(d)] + rest;
      KeptStep(Char(d), rest, false, config);
    } else {
      var more := Escaped(s[1..]) + [Char(d)] + rest;
      assert Escaped(s) + [Char(d)] + rest == [Char(BACKSLASH)] + ([Char(s[0])] + more);
      KeptOfEscaped(s[1..], d, rest, config);
      KeptStep(Char(BACKSLASH), [Char(s[0])] + more, false, config);
      KeptStep(Char(s[0]), more, true, config);
      assert "" + [s[0]] == [s[0]];
      assert "" + Without(s, d) == Without(s, d);
    }
  }

  /** For a text typed as it is, the kept characters are those that are not dropped. */
  lemma RawLimitExactly(s: string, d: char, rest: seq<Event>, n: nat)
    requires d !in s && n > 0
    ensures var read := ReadFrom(Chars(s) + [Char(d)] + rest, "", false, Config(Some(d), Some(n), false));
            if |Utf8.Encode(Printable(s))| < n then read == (Line(Printable(s)), |s| + 1)
            else read.0.Line? && LimitMet(read.0.text, Printable(s), n)
  {
    hide Utf8.Encode, ReadFrom, LimitMet;
    var config := Config(Some(d), Some(n), false);
    KeptOfChars(s, d, rest, config);
    LimitExactly(Chars(s) + [Char(d)] + rest, config);
    RawLineReads(s, d, rest);
  }

  /** For a text with every character escaped, they are those that are not the delimiter. */
  lemma EscapedLimitExactly(s: string, d: char, rest: seq<Event>, n: nat)
    requires d != BACKSLASH && n > 0
    ensures var read := ReadFrom(Escaped(s) + [Char(d)] + rest, "", false, Config(Some(d), Some(n), true));
            if |Utf8.Encode(Without(s, d))| < n then read == (Line(Without(s, d)), 2 * |s| + 1)
            else read.0.Line? && LimitMet(read.0.text, Without(s, d), n)
  {
    hide Utf8.Encode, ReadFrom, LimitMet;
    var config := Config(Some(d), Some(n), true);
    KeptOfEscaped(s, d, rest, config);
    LimitExactly(Escaped(s) + [Char(d)] + rest, config);
    EscapedLineReadsBack(s, d, rest);
  }

  const THREE_CHARACTERS := ['a', '\U{E9}', 'c']

  lemma TwoOfThree()
    ensures Printable(THREE_CHARACTERS) == THREE_CHARACTERS
    ensures |Utf8.Encode(THREE_CHARACTERS)| == 4
    ensures Needed("", THREE_CHARACTERS, 3) == 2
  {
    var s := THREE_CHARACTERS;
    assert s[1..] == ['\U{E9}', 'c'] && s[1..][1..] == ['c'] && s[1..][1..][1..] == "";
    assert "" + [s[0]] == ['a'] && ['a'] + [s[1]] == ['a', '\U{E9}'];
    assert ['a'][1..] == "" && ['a', '\U{E9}'][1..] == ['\U{E9}'] && ['\U{E9}'][1..] == "";
    EmptyEncodes();
    assert |Utf8.Encode(['a'])| == 1;
    assert |Utf8.EncodeChar('\U{E9}')| == 2;
    assert |Utf8.Encode(['\U{E9}'])| == 2 && |Utf8.Encode(['c'])| == 1;
    assert |Utf8.Encode(['a', '\U{E9}'])| == 3;
    assert Needed(['a'], ['\U{E9}', 'c'], 3) == 1;
  }

  /** A limit of three cuts this line of three characters after two. */
  lemma LimitCutsShort()
    ensures ReadFrom(Chars(THREE_CHARACTERS) + [Char('\n')] + [], "", false, Config(Some('\n'), Some(3), false)).0
         == Line(['a', '\U{E9}'])
  {
    hide Utf8.Encode, ReadFrom, KeptChars, Needed, Printable, Chars;
    var config := Config(Some('\n'), Some(3), false);
    var events := Chars(THREE_CHARACTERS) + [Char('\n')] + [];
    TwoOfThree();
    KeptOfChars(THREE_CHARACTERS, '\n', [], config);
    EmptyEncodes();
    assert "" + THREE_CHARACTERS == THREE_CHARACTERS;
    LimitedRead(events, "", false, config);
    assert "" + THREE_CHARACTERS[..2] == ['a', '\U{E9}'];
  }

  const THREE_ACCENTED := ['\U{E9}', '\U{E9}', '\U{E9}']

  lemma TwoOfThreeAccented()
    ensures Printable(THREE_ACCENTED) == THREE_ACCENTED
    ensures |Utf8.Encode(THREE_ACCENTED)| == 6
    ensures Needed("", THREE_ACCENTED, 4) == 2
  {
    var s := THREE_ACCENTED;
    assert s[1..] == ['\U{E9}', '\U{E9}'] && s[1..][1..] == ['\U{E9}'] && s[1..][1..][1..] == "";
    assert "" + [s[0]] == s[1..][1..] && s[1..][1..] + [s[1]] == s[1..];
    assert |Utf8.EncodeChar('\U{E9}')| == 2;
    EmptyEncodes();
    assert |Utf8.Encode(s[1..][1..])| == 2;
    assert |Utf8.Encode(s[1..])| == 4;
    assert Needed(s[1..][1..], s[1..], 4) == 1;
  }

  /** A limit of four, more than there are characters, still cuts this line of three after two:
      their four bytes reach it. */
  lemma LimitCutsShorterLine()
    ensures ReadFrom(Chars(THREE_ACCENTED) + [Char('\n')] + [], "", false, Config(Some('\n'), Some(4), false)).0
         == Line(THREE_ACCENTED[..2])
  {
    hide Utf8.Encode, ReadFrom, KeptChars, Needed, Printable, Chars;
    var config := Config(Some('\n'), Some(4), false);
    var events := Chars(THREE_ACCENTED) + [Char('\n')] + [];
    TwoOfThreeAccented();
    KeptOfChars(THREE_ACCENTED, '\n', [], config);
    EmptyEncodes();
    assert "" + THREE_ACCENTED == THREE_ACCENTED;
    LimitedRead(events, "", false, config);
    assert "" + THREE_ACCENTED[..2] == THREE_ACCENTED[..2];
  }
}
