/** What reading a line and splitting it comes to, in characters and separators. */
module ReadLaws {
  import opened Wrappers
  import opened Numerals
  import opened ReadSplit

  // ----- Separators -----

  /** A separator is any IFS character; space, tab and newline are blank. */
  predicate IsSeparator(c: char, ifs: string) { c in ifs }

  predicate IsBlank(c: char, ifs: string) { c in ifs && c as int in [0x20, 0x09, 0x0A] }

  lemma IfsIs(c: char, ifs: string)
    ensures IsIfs(c, ifs) <==> IsSeparator(c, ifs)
    ensures IsIfsWhitespace(c, ifs) <==> IsBlank(c, ifs)
  {
  }

  /** Every run of blanks shrunk to its last one. */
  function Collapsed(s: string, ifs: string): string {
    if s == "" then ""
    else if |s| > 1 && IsBlank(s[0], ifs) && IsBlank(s[1], ifs) then Collapsed(s[1..], ifs)
    else [s[0]] + Collapsed(s[1..], ifs)
  }

  /** The pieces between the separators, empty ones too. */
  function Pieces(s: string, ifs: string): (r: seq<string>)
    ensures r != []
  {
    if s == "" then [""]
    else
      var rest := Pieces(s[1..], ifs);
      if IsSeparator(s[0], ifs) then [""] + rest else [[s[0]] + rest[0]] + rest[1..]
  }

  /** Without a last piece that is empty. */
  function Closed(pieces: seq<string>): seq<string> {
    if pieces != [] && pieces[|pieces| - 1] == "" then pieces[..|pieces| - 1] else pieces
  }

  predicate SeparatorFree(s: string, ifs: string) {
    forall i :: 0 <= i < |s| ==> !IsSeparator(s[i], ifs)
  }

  lemma {:induction false} PiecesCut(x: string, c: char, y: string, ifs: string)
    requires SeparatorFree(x, ifs)
    ensures IsSeparator(c, ifs) ==> Pieces(x + ([c] + y), ifs) == [x] + Pieces(y, ifs)
    ensures Pieces(x, ifs) == [x]
  {
    var all := x + ([c] + y);
    if x == "" {
      assert all[0] == c && all[1..] == y;
    } else {
      assert all[0] == x[0] && all[1..] == x[1..] + ([c] + y);
      PiecesCut(x[1..], c, y, ifs);
      assert [x[0]] + x[1..] == x;
    }
  }

  lemma {:induction false} CollapsedPrefix(x: string, rest: string, ifs: string)
    requires SeparatorFree(x, ifs)
    ensures Collapsed(x + rest, ifs) == x + Collapsed(rest, ifs)
    ensures Collapsed(x, ifs) == x
  {
    if x == "" {
      assert x + rest == rest;
    } else {
      assert (x + rest)[0] == x[0] && (x + rest)[1..] == x[1..] + rest;
      CollapsedPrefix(x[1..], rest, ifs);
    }
  }

  /** Behind a blank, the run it begins is one character. */
  lemma {:induction false} CollapsedRun(c: char, rest: string, ifs: string)
    requires IsBlank(c, ifs) && TrimStart(rest, ifs) != ""
    ensures exists d :: IsBlank(d, ifs) && Collapsed([c] + rest, ifs) == [d] + Collapsed(TrimStart(rest, ifs), ifs)
    decreases |rest|
  {
    hide Collapsed, TrimStart, IsBlank, IsIfsWhitespace;
    TrimUnfolds(rest, ifs);
    CollapsedUnfolds(c, rest, ifs);
    if IsBlank(rest[0], ifs) {
      assert rest == [rest[0]] + rest[1..];
      CollapsedRun(rest[0], rest[1..], ifs);
    } else {
      assert Collapsed([c] + rest, ifs) == [c] + Collapsed(TrimStart(rest, ifs), ifs);
    }
  }

  lemma TrimUnfolds(s: string, ifs: string)
    ensures s == "" ==> TrimStart(s, ifs) == ""
    ensures s != "" ==> TrimStart(s, ifs) == if IsBlank(s[0], ifs) then TrimStart(s[1..], ifs) else s
  {
    if s != "" {
      IfsIs(s[0], ifs);
    }
  }

  lemma CollapsedUnfolds(c: char, rest: string, ifs: string)
    requires rest != "" && IsBlank(c, ifs)
    ensures Collapsed([c] + rest, ifs)
         == if IsBlank(rest[0], ifs) then Collapsed(rest, ifs) else [c] + Collapsed(rest, ifs)
  {
    hide IsBlank;
    var all := [c] + rest;
    assert all[0] == c && all[1..] == rest && all[1] == rest[0];
  }

  /** The rest of a trimmed line: it does not end in a blank. */
  predicate TailTrimmed(s: string, ifs: string) { s == "" || !IsBlank(s[|s| - 1], ifs) }

  lemma ClosedCons(x: string, pieces: seq<string>)
    requires pieces != []
    ensures Closed([x] + pieces) == [x] + Closed(pieces)
  {
  }

  lemma FreeBefore(s: string, ifs: string)
    ensures SeparatorFree(s[..FieldLength(s, ifs)], ifs)
    ensures FieldLength(s, ifs) < |s| ==> IsSeparator(s[FieldLength(s, ifs)], ifs)
  {
  }

  /** What is left behind a field's separator, blanks skipped. */
  lemma SkipBlanks(rest: string, ifs: string, count: nat)
    ensures FieldsFrom("", rest, ifs, count, None, Blank)
         == FieldsFrom("", TrimStart(rest, ifs), ifs, count, None, Blank)
  {
    hide FieldsFrom;
    UnfoldField(rest, ifs, count, None, Blank);
    UnfoldField(TrimStart(rest, ifs), ifs, count, None, Blank);
    TrimStartTwice(rest, ifs);
  }

  lemma TrimStartTwice(s: string, ifs: string)
    ensures TrimStart(TrimStart(s, ifs), ifs) == TrimStart(s, ifs)
  {
  }

  lemma TrimmedHead(s: string, ifs: string)
    requires s != "" && !IsBlank(s[0], ifs)
    ensures TrimStart(s, ifs) == s
  {
    IfsIs(s[0], ifs);
  }

  lemma {:induction false} TrimKeepsEnd(s: string, ifs: string)
    requires s != "" && !IsBlank(s[|s| - 1], ifs)
    ensures var t := TrimStart(s, ifs);
            t != "" && TailTrimmed(t, ifs) && |t| <= |s| && t == s[|s| - |t|..] && !IsBlank(t[0], ifs)
    decreases |s|
  {
    IfsIs(s[0], ifs);
    if IsBlank(s[0], ifs) {
      TrimKeepsEnd(s[1..], ifs);
    }
  }

  lemma TailKept(s: string, n: nat, ifs: string)
    requires TailTrimmed(s, ifs) && n < |s|
    ensures TailTrimmed(s[n + 1..], ifs) && (s[n + 1..] == "" ==> !IsBlank(s[n], ifs))
    ensures IsBlank(s[n], ifs) ==> TrimStart(s[n + 1..], ifs) != "" && TailTrimmed(TrimStart(s[n + 1..], ifs), ifs)
  {
    var rest := s[n + 1..];
    if rest != "" {
      assert rest[|rest| - 1] == s[|s| - 1];
      TrimKeepsEnd(rest, ifs);
    }
  }

  /** The first piece, and what is behind its separator. */
  lemma FirstPiece(rest: string, n: nat, ifs: string)
    requires TailTrimmed(rest, ifs) && n == FieldLength(rest, ifs) && n < |rest|
    ensures var tail := if IsBlank(rest[n], ifs) then TrimStart(rest[n + 1..], ifs) else rest[n + 1..];
            Closed(Pieces(Collapsed(rest, ifs), ifs)) == [rest[..n]] + Closed(Pieces(Collapsed(tail, ifs), ifs))
  {
    hide Pieces, Collapsed, Closed, SeparatorFree, TailTrimmed, IsBlank, FieldLength, TrimStart;
    var x, c, tail := rest[..n], rest[n], rest[n + 1..];
    FreeBefore(rest, ifs);
    TailKept(rest, n, ifs);
    assert rest == x + ([c] + tail);
    CollapsedPrefix(x, [c] + tail, ifs);
    if IsBlank(c, ifs) {
      var t := TrimStart(tail, ifs);
      CollapsedRun(c, tail, ifs);
      var d :| IsBlank(d, ifs) && Collapsed([c] + tail, ifs) == [d] + Collapsed(t, ifs);
      PiecesCutAt(x, d, Collapsed(t, ifs), ifs);
    } else {
      CollapsedStep(c, tail, ifs);
      PiecesCut(x, c, Collapsed(tail, ifs), ifs);
      ClosedCons(x, Pieces(Collapsed(tail, ifs), ifs));
    }
  }

  lemma OnePiece(rest: string, ifs: string)
    requires FieldLength(rest, ifs) == |rest|
    ensures Closed(Pieces(Collapsed(rest, ifs), ifs)) == if rest == "" then [] else [rest]
  {
    hide Pieces, Collapsed, Closed;
    FreeBefore(rest, ifs);
    assert rest[..|rest|] == rest;
    CollapsedPrefix(rest, "", ifs);
    PiecesCut(rest, ' ', "", ifs);
    ClosedOne(rest);
  }

  /** The first field, and what is behind its separator, blanks skipped. */
  lemma FirstField(rest: string, ifs: string, count: nat, before: Before)
    requires TailTrimmed(rest, ifs) && (before.Blank? ==> rest != "" && !IsBlank(rest[0], ifs))
    ensures var n := FieldLength(rest, ifs);
            FieldsFrom("", rest, ifs, count, None, before)
            == if n == |rest| then (if rest == "" && before.Delimiter? then [] else [rest])
               else
                 [rest[..n]]
                 + if IsBlank(rest[n], ifs)
                   then FieldsFrom("", TrimStart(rest[n + 1..], ifs), ifs, count + 1, None, Blank)
                   else FieldsFrom("", rest[n + 1..], ifs, count + 1, None, Delimiter)
  {
    hide FieldsFrom, TailTrimmed, IsBlank, IsIfsWhitespace, FieldLength, TrimStart;
    UnfoldField(rest, ifs, count, None, before);
    if before.Blank? {
      TrimmedHead(rest, ifs);
    }
    var n := FieldLength(rest, ifs);
    if n < |rest| {
      IfsIs(rest[n], ifs);
      SkipBlanks(rest[n + 1..], ifs, count + 1);
    }
  }

  lemma {:induction false} FieldsArePieces(rest: string, ifs: string, count: nat, before: Before)
    requires TailTrimmed(rest, ifs) && (rest != "" || before.Delimiter?)
    requires before.Blank? ==> !IsBlank(rest[0], ifs)
    ensures FieldsFrom("", rest, ifs, count, None, before) == Closed(Pieces(Collapsed(rest, ifs), ifs))
    decreases |rest|
  {
    hide FieldsFrom, Pieces, Collapsed, Closed, TailTrimmed, IsBlank, FieldLength, TrimStart;
    FirstField(rest, ifs, count, before);
    var n := FieldLength(rest, ifs);
    if n == |rest| {
      OnePiece(rest, ifs);
    } else {
      FirstPiece(rest, n, ifs);
      TailKept(rest, n, ifs);
      if IsBlank(rest[n], ifs) {
        var t := TrimStart(rest[n + 1..], ifs);
        IfsIs(t[0], ifs);
        FieldsArePieces(t, ifs, count + 1, Blank);
      } else {
        FieldsArePieces(rest[n + 1..], ifs, count + 1, Delimiter);
      }
    }
  }

  lemma PiecesCutAt(x: string, d: char, y: string, ifs: string)
    requires SeparatorFree(x, ifs) && IsBlank(d, ifs)
    ensures Closed(Pieces(x + ([d] + y), ifs)) == [x] + Closed(Pieces(y, ifs))
  {
    PiecesCut(x, d, y, ifs);
    ClosedCons(x, Pieces(y, ifs));
  }

  lemma CollapsedStep(c: char, tail: string, ifs: string)
    requires !IsBlank(c, ifs)
    ensures Collapsed([c] + tail, ifs) == [c] + Collapsed(tail, ifs)
  {
    assert ([c] + tail)[0] == c && ([c] + tail)[1..] == tail;
  }

  lemma ClosedOne(x: string)
    ensures Closed([x]) == if x == "" then [] else [x]
  {
  }

  /** Without a limit, the fields of a line are the pieces between its separators, where a run of
      blanks is one separator, blanks around the line are none, and a separator at its end closes the
      last field. */
  lemma LineIsPieces(ifs: string, line: string)
    ensures SplitLine(ifs, line, None) == Closed(Pieces(Collapsed(Trim(line, ifs), ifs), ifs))
  {
    hide FieldsFrom;
    var trimmed := Trim(line, ifs);
    if trimmed != "" {
      var before, after := TrimmedEnds(line, ifs);
      FieldsArePieces(trimmed, ifs, 0, LineStart);
    }
  }

  /** Trimming takes the blanks off both ends of a line, and nothing else. */
  lemma TrimmedEnds(line: string, ifs: string) returns (before: string, after: string)
    ensures var t := Trim(line, ifs);
            && (t != "" ==> !IsBlank(t[0], ifs)) && TailTrimmed(t, ifs)
            && line == before + t + after && AllBlank(before, ifs) && AllBlank(after, ifs)
  {
    hide TrimStart, TrimEnd;
    var left := TrimStart(line, ifs);
    before := CutStart(line, ifs);
    after := CutEnd(left, ifs);
    assert line == before + (Trim(line, ifs) + after);
    if Trim(line, ifs) != "" {
      assert Trim(line, ifs)[0] == left[0];
      IfsIs(left[0], ifs);
    }
  }

  predicate AllBlank(s: string, ifs: string) { forall i :: 0 <= i < |s| ==> IsBlank(s[i], ifs) }

  lemma CutStart(s: string, ifs: string) returns (before: string)
    ensures s == before + TrimStart(s, ifs) && AllBlank(before, ifs)
  {
    var n := |s| - |TrimStart(s, ifs)|;
    before := s[..n];
    assert s == s[..n] + s[n..];
    forall i | 0 <= i < n ensures IsBlank(before[i], ifs) {
      IfsIs(s[i], ifs);
    }
  }

  lemma CutEnd(s: string, ifs: string) returns (after: string)
    ensures s == TrimEnd(s, ifs) + after && AllBlank(after, ifs) && TailTrimmed(TrimEnd(s, ifs), ifs)
  {
    var n := |TrimEnd(s, ifs)|;
    after := s[n..];
    assert s == s[..n] + s[n..];
    forall i | 0 <= i < |after| ensures IsBlank(after[i], ifs) {
      IfsIs(s[n + i], ifs);
    }
    if n > 0 {
      IfsIs(s[n - 1], ifs);
    }
  }

  // ----- Limits -----

  /** A list cut to k fields: the first k - 1 are kept, and the k-th is the end of the text. */
  predicate CutTo(limited: seq<string>, free: seq<string>, k: nat, text: string, ifs: string) {
    && |limited| == Min(|free|, k)
    && (forall i :: 0 <= i < |limited| && i < k - 1 ==> limited[i] == free[i])
    && (|limited| == k && k > 0 ==>
          var last := limited[k - 1];
          |last| <= |text| && last == text[|text| - |last|..] && (last == "" || !IsBlank(last[0], ifs)))
  }

  lemma CutToCons(x: string, limited: seq<string>, free: seq<string>, k: nat, text: string, all: string, ifs: string)
    requires CutTo(limited, free, k, text, ifs) && k > 0
    requires |text| <= |all| && text == all[|all| - |text|..]
    ensures CutTo([x] + limited, [x] + free, k + 1, all, ifs)
  {
    hide IsBlank;
    assert forall i :: 0 < i <= |limited| ==> ([x] + limited)[i] == limited[i - 1];
    assert forall i :: 0 < i <= |free| ==> ([x] + free)[i] == free[i - 1];
  }

  /** With a limit of n fields the first n - 1 are what they are without it, and the n-th is all the
      rest of the line, without blanks in front. */
  lemma {:induction false} LimitedFields(rest: string, ifs: string, count: nat, n: nat, before: Before)
    requires count < n && TailTrimmed(rest, ifs) && (rest != "" || before.Delimiter?)
    ensures CutTo(FieldsFrom("", rest, ifs, count, Some(n), before), FieldsFrom("", rest, ifs, count, None, before),
                  n - count, rest, ifs)
    decreases |rest|
  {
    hide FieldsFrom, FieldLength, TailTrimmed, TrimStart, IsBlank, CutTo, Start, Length;
    if count + 1 >= n {
      LastField(rest, ifs, count, n, before);
    } else {
      StartIs(rest, ifs, count, n, before);
      UnfoldField(rest, ifs, count, None, before);
      UnfoldField(rest, ifs, count, Some(n), before);
      var start := Start("", rest, ifs, count, None, before);
      var m := FieldLength(start, ifs);
      if m < |start| {
        var tail := start[m + 1..];
        TailKept(start, m, ifs);
        IfsIs(start[m], ifs);
        LimitedFields(tail, ifs, count + 1, n, BeforeAfter(start[m], ifs));
        var next := BeforeAfter(start[m], ifs);
        CutToCons(start[..m], FieldsFrom("", tail, ifs, count + 1, Some(n), next),
                  FieldsFrom("", tail, ifs, count + 1, None, next), n - count - 1, tail, rest, ifs);
      } else {
        AllCut(start, before, n - count, rest, ifs);
      }
    }
  }

  lemma AllCut(start: string, before: Before, k: nat, rest: string, ifs: string)
    requires k > 1
    ensures var f := if start == "" && before.Delimiter? then [] else [start]; CutTo(f, f, k, rest, ifs)
  {
  }

  lemma StartIs(rest: string, ifs: string, count: nat, n: nat, before: Before)
    requires count + 1 < n && TailTrimmed(rest, ifs)
    ensures var start := Start("", rest, ifs, count, None, before);
            && start == Start("", rest, ifs, count, Some(n), before)
            && Length(start, ifs, count, Some(n)) == Length(start, ifs, count, None) == FieldLength(start, ifs)
            && TailTrimmed(start, ifs) && |start| <= |rest| && start == rest[|rest| - |start|..]
  {
    if rest != "" {
      TrimKeepsEnd(rest, ifs);
    }
  }

  lemma LastField(rest: string, ifs: string, count: nat, n: nat, before: Before)
    requires count + 1 == n && TailTrimmed(rest, ifs) && (rest != "" || before.Delimiter?)
    ensures CutTo(FieldsFrom("", rest, ifs, count, Some(n), before), FieldsFrom("", rest, ifs, count, None, before),
                  1, rest, ifs)
  {
    hide FieldsFrom, FieldLength, IsBlank;
    UnfoldField(rest, ifs, count, None, before);
    UnfoldField(rest, ifs, count, Some(n), before);
    if rest != "" {
      TailEnds(rest, ifs);
      TrimKeepsEnd(rest, ifs);
    } else {
      NoBlanks(ifs);
    }
  }

  lemma TailEnds(rest: string, ifs: string)
    requires rest != "" && TailTrimmed(rest, ifs)
    ensures !IsBlank(rest[|rest| - 1], ifs)
  {
  }

  lemma NoBlanks(ifs: string)
    ensures TrimStart("", ifs) == ""
  {
  }

  /** Of a line. */
  lemma LimitedLine(ifs: string, line: string, n: nat)
    requires n > 0
    ensures CutTo(SplitLine(ifs, line, Some(n)), SplitLine(ifs, line, None), n, Trim(line, ifs), ifs)
  {
    hide FieldsFrom, Trim, IsBlank;
    var before, after := TrimmedEnds(line, ifs);
    if Trim(line, ifs) != "" {
      LimitedFields(Trim(line, ifs), ifs, 0, n, LineStart);
    }
  }

  /** What `read` assigns: the fields of the line, as many as there are variables, or the line as it
      is if splitting is off; the variables behind them are emptied. */
  lemma FieldsForVariables(line: Option<string>, ifs: string, skipSplitting: bool, variables: nat)
    ensures var fields := BuildVariableFields(line, ifs, skipSplitting, variables);
            match line
            case None => fields == []
            case Some(text) =>
              if skipSplitting then fields == [text]
              else
                && fields == SplitLine(ifs, text, Some(variables))
                && (variables > 0 ==> |fields| == Min(|SplitLine(ifs, text, None)|, variables))
  {
    hide SplitLine;
    if line.Some? && variables > 0 {
      LimitedLine(ifs, line.value, variables);
    }
  }

  // ----- What ends a line -----

  /** The control characters that are dropped from a line read as it is. */
  predicate IsNoise(c: char) {
    c as int in [0, 1, 2, 3, 4, 5, 6, 7, 8, 0x0B, 0x0E, 0x0F, 0x10, 0x11, 0x12, 0x13, 0x14, 0x15, 0x16, 0x17, 0x18,
                 0x19, 0x1A, 0x1B, 0x1C, 0x1D, 0x1E, 0x1F, 0x7F]
  }

  lemma NoiseIsDropped(c: char)
    ensures IsDropped(c) <==> IsNoise(c)
  {
  }

  lemma OneKept(c: char)
    ensures Printable([c]) == if IsNoise(c) then "" else [c]
  {
    NoiseIsDropped(c);
    hide IsDropped, IsNoise;
    assert [c][1..] == "" && [c] + "" == [c];
  }

  lemma {:induction false} KeptInOrder(s: string, t: string)
    ensures Printable(s + t) == Printable(s) + Printable(t)
  {
    hide IsDropped, Printable;
    if s == "" {
      assert s + t == t;
      NothingKept(t);
    } else {
      KeptInOrder(s[1..], t);
      KeptUnfolds(s, t);
    }
  }

  lemma NothingKept(t: string)
    ensures Printable("") + Printable(t) == Printable(t)
  {
  }

  lemma KeptUnfolds(s: string, t: string)
    requires s != ""
    ensures var head := if IsDropped(s[0]) then "" else [s[0]];
            Printable(s) + Printable(t) == head + (Printable(s[1..]) + Printable(t))
            && Printable(s + t) == head + Printable(s[1..] + t)
  {
    hide IsDropped;
    assert (s + t)[0] == s[0] && (s + t)[1..] == s[1..] + t;
  }

  /** What the other events make of the text read so far: the end of input and a timeout hand it over
      as partial, if there is any; Ctrl+C drops it; Ctrl+D ends the line, or the input if nothing was
      typed. */
  lemma StopsRead(s: string, d: char, stop: Event, rest: seq<Event>)
    requires d !in s && !stop.Char?
    ensures var (r, taken) := ReadFrom(Chars(s) + [stop] + rest, "", false, Config(Some(d), None, false));
            var text := Printable(s);
            && taken == |s| + 1
            && match stop
               case Eof => r == EndOfInput(if text == "" then None else Some(text))
               case Timeout => r == TimedOut(if text == "" then None else Some(text))
               case CtrlC => r == Interrupted
               case CtrlD => r == if text == "" then EndOfInput(None) else Line(text)
  {
    StopsFrom(s, "", d, stop, rest);
    assert "" + Printable(s) == Printable(s);
  }

  lemma {:induction false} StopsFrom(s: string, line: string, d: char, stop: Event, rest: seq<Event>)
    requires d !in s && !stop.Char?
    ensures var config := Config(Some(d), None, false);
            ReadFrom(Chars(s) + [stop] + rest, line, false, config)
            == (ReadEvent(stop, line + Printable(s), false, config).result, |s| + 1)
    decreases |s|
  {
    hide ReadFrom, IsDropped;
    var config := Config(Some(d), None, false);
    if s == "" {
      assert Chars(s) + [stop] + rest == [stop] + rest && line + "" == line;
      ReadConsPair(stop, rest, line, false, config);
    } else {
      var more := Chars(s[1..]) + [stop] + rest;
      assert Chars(s) + [stop] + rest == [Char(s[0])] + more;
      ReadConsPair(Char(s[0]), more, line, false, config);
      var next := if IsDropped(s[0]) then line else line + [s[0]];
      StopsFrom(s[1..], next, d, stop, rest);
      assert next + Printable(s[1..]) == line + Printable(s);
    }
  }

  /** A backslash that waits for its character is handed over by a timeout only. */
  lemma PendingRead(stop: Event, rest: seq<Event>, d: char)
    requires !stop.Char? && d != BACKSLASH
    ensures var (r, taken) := ReadFrom([Char(BACKSLASH), stop] + rest, "", false, Config(Some(d), None, true));
            && taken == 2
            && match stop
               case Eof => r == EndOfInput(None)
               case Timeout => r == TimedOut(Some([BACKSLASH]))
               case CtrlC => r == Interrupted
               case CtrlD => r == Line("")
  {
    var config := Config(Some(d), None, true);
    assert [Char(BACKSLASH), stop] + rest == [Char(BACKSLASH)] + ([stop] + rest);
    assert "" + [BACKSLASH] == [BACKSLASH];
    hide ReadFrom;
    ReadConsPair(Char(BACKSLASH), [stop] + rest, "", false, config);
    ReadConsPair(stop, rest, "", true, config);
  }
}
