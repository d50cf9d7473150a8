/** What the completion tokenizer makes of a line that is written out of blanks, delimiters and
    words: exactly these delimiters and words. */
module TokenLaws {
  import opened Wrappers
  import opened Completion

  /** A character of a word: as it is, or behind a backslash. */
  datatype Unit = Bare(c: char) | Escaped(c: char) {
    function Text(): string { if Bare? then [c] else ['\\', c] }
  }

  function UnitsText(units: seq<Unit>): string {
    if units == [] then "" else units[0].Text() + UnitsText(units[1..])
  }

  /** A quoted beginning of a word. In double quotes a backslash escapes. */
  datatype Quotation = Single(body: string) | Double(units: seq<Unit>) {
    function Text(): string {
      match this
      case Single(body) => "'" + (body + "'")
      case Double(units) => "\"" + (UnitsText(units) + "\"")
    }

    predicate Legal() {
      match this
      case Single(body) => '\'' !in body
      case Double(units) => forall u :: u in units && u.Bare? ==> u.c != '"' && u.c != '\\'
    }
  }

  datatype Segment = Blanks(text: string) | Marks(text: string) | Word(quotation: Option<Quotation>, units: seq<Unit>) {
    function Text(): string {
      match this
      case Blanks(text) => text
      case Marks(text) => text
      case Word(q, units) => (if q.Some? then q.value.Text() else "") + UnitsText(units)
    }

    function Kind(): Class {
      match this case Blanks(_) => Blank case Marks(_) => Punctuation case Word(_, _) => Letter
    }

    /** A quotation opens only behind a blank or at the start of the line, where therefore no other
        segment begins with a quote. */
    predicate Legal(delimiters: string, afterBlank: bool) {
      && Text() != ""
      && match this
         case Blanks(text) => forall c :: c in text ==> c in delimiters && IsBlank(c)
         case Marks(text) =>
           && (forall c :: c in text ==> c in delimiters && !IsBlank(c) && c != '\\')
           && (afterBlank ==> !IsQuote(text[0]))
         case Word(q, units) =>
           && (q.Some? ==> afterBlank && q.value.Legal())
           && (forall u :: u in units && u.Bare? ==> u.c !in delimiters && u.c != '\\')
           && (q.None? && afterBlank && units[0].Bare? ==> !IsQuote(units[0].c))
    }
  }

  predicate IsQuote(c: char) { c as int == 0x27 || c as int == 0x22 }

  /** Space, tab, newline, form feed and carriage return. */
  predicate IsBlank(c: char) { c as int in [0x20, 0x09, 0x0A, 0x0C, 0x0D] }

  function LineText(segments: seq<Segment>): string {
    if segments == [] then "" else segments[0].Text() + LineText(segments[1..])
  }

  /** No two neighbours are of a kind, and each is legal where it stands. */
  predicate LegalLine(segments: seq<Segment>, delimiters: string, afterBlank: bool) {
    segments == []
    || (&& segments[0].Legal(delimiters, afterBlank)
        && (|segments| > 1 ==> segments[0].Kind() != segments[1].Kind())
        && LegalLine(segments[1..], delimiters, segments[0].Blanks?))
  }

  /** The delimiters and words of a line, from position `at` on. */
  function Expected(segments: seq<Segment>, at: nat): seq<Token> {
    if segments == [] then []
    else
      var text := segments[0].Text();
      (if segments[0].Blanks? then [] else [Token(text, at)]) + Expected(segments[1..], at + |text|)
  }

  function Repeated(kind: Class, n: nat): (r: seq<Class>)
    ensures |r| == n && forall i :: 0 <= i < n ==> r[i] == kind
  {
    seq(n, i => kind)
  }

  /** The classes of a stretch of text, and the state of the scanner behind it. */
  ghost predicate Scans(text: string, delimiters: string, between: bool, quote: Option<char>, kind: Class,
                        between': bool, quote': Option<char>) {
    forall rest: string :: ScansBefore(text, rest, delimiters, between, quote, kind, between', quote')
  }

  ghost predicate ScansBefore(text: string, rest: string, delimiters: string, between: bool, quote: Option<char>,
                              kind: Class, between': bool, quote': Option<char>) {
    Classes(text + rest, delimiters, between, quote, false)
    == Repeated(kind, |text|) + Classes(rest, delimiters, between', quote', false)
  }

  lemma ScansNothing(delimiters: string, between: bool, quote: Option<char>, kind: Class)
    ensures Scans("", delimiters, between, quote, kind, between, quote)
  {
    forall rest: string ensures ScansBefore("", rest, delimiters, between, quote, kind, between, quote) {
      assert "" + rest == rest;
      assert Repeated(kind, 0) + Classes(rest, delimiters, between, quote, false)
          == Classes(rest, delimiters, between, quote, false);
    }
  }

  lemma ScansBoth(a: string, b: string, delimiters: string, x: bool, p: Option<char>, kind: Class,
                  y: bool, q: Option<char>, z: bool, r: Option<char>)
    requires Scans(a, delimiters, x, p, kind, y, q) && Scans(b, delimiters, y, q, kind, z, r)
    ensures Scans(a + b, delimiters, x, p, kind, z, r)
  {
    forall rest: string ensures ScansBefore(a + b, rest, delimiters, x, p, kind, z, r) {
      assert a + b + rest == a + (b + rest);
      assert ScansBefore(a, b + rest, delimiters, x, p, kind, y, q);
      assert ScansBefore(b, rest, delimiters, y, q, kind, z, r);
      var more := Classes(rest, delimiters, z, r, false);
      assert Repeated(kind, |a|) + (Repeated(kind, |b|) + more) == Repeated(kind, |a + b|) + more;
    }
  }

  lemma ScansOne(c: char, delimiters: string, between: bool, quote: Option<char>, kind: Class, quote': Option<char>)
    requires if quote.Some? then
               && !(c == '\\' && quote.value == '"') && kind.Letter?
               && quote' == if c == quote.value then None else quote
             else if c != '\\' && between && IsQuote(c) then kind.Letter? && quote' == Some(c)
             else c != '\\' && kind == ClassOf(c, delimiters) && quote'.None?
    ensures Scans([c], delimiters, between, quote, kind, quote.None? && quote'.None? && kind.Blank?, quote')
  {
    hide ClassOf;
    var between' := quote.None? && quote'.None? && kind.Blank?;
    assert IsQuote(c) <==> c == '\'' || c == '"';
    forall rest: string ensures ScansBefore([c], rest, delimiters, between, quote, kind, between', quote') {
      assert ([c] + rest)[0] == c && ([c] + rest)[1..] == rest;
    }
  }

  lemma ScansEscaped(c: char, delimiters: string, between: bool, quote: Option<char>)
    requires quote.None? || quote == Some('"')
    ensures Scans(['\\', c], delimiters, between, quote, Letter, false, quote)
  {
    forall rest: string ensures ScansBefore(['\\', c], rest, delimiters, between, quote, Letter, false, quote) {
      var all := ['\\', c] + rest;
      assert all[0] == '\\' && all[1..] == [c] + rest;
      assert ([c] + rest)[0] == c && ([c] + rest)[1..] == rest;
      var more := Classes(rest, delimiters, false, quote, false);
      assert [Letter] + ([Letter] + more) == Repeated(Letter, 2) + more;
    }
  }

  // ----- Segments -----

  lemma ClassIs(c: char, delimiters: string)
    ensures ClassOf(c, delimiters) == if c !in delimiters then Letter else if IsBlank(c) then Blank else Punctuation
  {
  }

  lemma {:induction false} BlanksScan(text: string, delimiters: string, between: bool)
    requires text != "" && forall c :: c in text ==> c in delimiters && IsBlank(c)
    ensures Scans(text, delimiters, between, None, Blank, true, None)
    decreases |text|
  {
    hide Scans, IsBlank, ClassOf;
    var c, rest := text[0], text[1..];
    assert c in text && forall d :: d in rest ==> d in text;
    ClassIs(c, delimiters);
    BlankIsNoQuote(c);
    ScansOne(c, delimiters, between, None, Blank, None);
    assert text == [c] + rest;
    if rest != "" {
      BlanksScan(rest, delimiters, true);
      ScansBoth([c], rest, delimiters, between, None, Blank, true, None, true, None);
    } else {
      assert text == [c];
    }
  }

  lemma BlankIsNoQuote(c: char)
    requires IsBlank(c)
    ensures !IsQuote(c) && c != '\\'
  {
  }

  lemma {:induction false} MarksScan(text: string, delimiters: string, between: bool)
    requires text != "" && forall c :: c in text ==> c in delimiters && !IsBlank(c) && c != '\\'
    requires between ==> !IsQuote(text[0])
    ensures Scans(text, delimiters, between, None, Punctuation, false, None)
    decreases |text|
  {
    hide Scans, IsBlank, ClassOf;
    var c, rest := text[0], text[1..];
    assert c in text && forall d :: d in rest ==> d in text;
    ClassIs(c, delimiters);
    ScansOne(c, delimiters, between, None, Punctuation, None);
    assert text == [c] + rest;
    if rest != "" {
      MarksScan(rest, delimiters, false);
      ScansBoth([c], rest, delimiters, between, None, Punctuation, false, None, false, None);
    } else {
      assert text == [c];
    }
  }

  lemma {:induction false} UnitsScan(units: seq<Unit>, delimiters: string, between: bool, quote: Option<char>)
    requires units != [] && (quote.None? || quote == Some('"'))
    requires forall u :: u in units && u.Bare? ==>
               u.c != '\\' && if quote.None? then u.c !in delimiters else u.c != '"'
    requires quote.None? && between && units[0].Bare? ==> !IsQuote(units[0].c)
    ensures Scans(UnitsText(units), delimiters, between, quote, Letter, false, quote)
    decreases |units|
  {
    hide Scans, IsBlank, ClassOf, IsQuote;
    var u, rest := units[0], units[1..];
    assert u in units && forall v :: v in rest ==> v in units;
    if u.Bare? {
      ClassIs(u.c, delimiters);
      ScansOne(u.c, delimiters, between, quote, Letter, quote);
    } else {
      ScansEscaped(u.c, delimiters, between, quote);
    }
    if rest == [] {
      assert UnitsText(units) == u.Text() + "" == u.Text();
    } else {
      UnitsScan(rest, delimiters, false, quote);
      ScansBoth(u.Text(), UnitsText(rest), delimiters, between, quote, Letter, false, quote, false, quote);
    }
  }

  lemma {:induction false} BodyScans(body: string, delimiters: string)
    requires '\'' !in body
    ensures Scans(body, delimiters, false, Some('\''), Letter, false, Some('\''))
    decreases |body|
  {
    hide Scans;
    if body == "" {
      ScansNothing(delimiters, false, Some('\''), Letter);
    } else {
      var c, rest := body[0], body[1..];
      ScansOne(c, delimiters, false, Some('\''), Letter, Some('\''));
      BodyScans(rest, delimiters);
      ScansBoth([c], rest, delimiters, false, Some('\''), Letter, false, Some('\''), false, Some('\''));
      assert body == [c] + rest;
    }
  }

  lemma QuotationScans(q: Quotation, delimiters: string)
    requires q.Legal()
    ensures Scans(q.Text(), delimiters, true, None, Letter, false, None)
  {
    hide Scans, ClassOf;
    var mark, inner := if q.Single? then '\'' else '"', if q.Single? then q.body else UnitsText(q.units);
    ScansOne(mark, delimiters, true, None, Letter, Some(mark));
    ScansOne(mark, delimiters, false, Some(mark), Letter, None);
    if q.Single? {
      BodyScans(q.body, delimiters);
    } else if q.units == [] {
      ScansNothing(delimiters, false, Some(mark), Letter);
    } else {
      UnitsScan(q.units, delimiters, false, Some(mark));
    }
    ScansBoth(inner, [mark], delimiters, false, Some(mark), Letter, false, Some(mark), false, None);
    ScansBoth([mark], inner + [mark], delimiters, true, None, Letter, false, Some(mark), false, None);
    assert q.Text() == [mark] + (inner + [mark]);
  }

  lemma SegmentScans(s: Segment, delimiters: string, afterBlank: bool)
    requires s.Legal(delimiters, afterBlank)
    ensures Scans(s.Text(), delimiters, afterBlank, None, s.Kind(), s.Blanks?, None)
  {
    hide Scans, IsBlank, IsQuote, UnitsText;
    match s
    case Blanks(text) => BlanksScan(text, delimiters, afterBlank);
    case Marks(text) => MarksScan(text, delimiters, afterBlank);
    case Word(q, units) =>
      if q.Some? {
        QuotationScans(q.value, delimiters);
        if units != [] {
          UnitsScan(units, delimiters, false, None);
          ScansBoth(q.value.Text(), UnitsText(units), delimiters, true, None, Letter, false, None, false, None);
        } else {
          NoUnits();
          assert s.Text() == q.value.Text();
        }
      } else {
        NoUnits();
        assert "" + UnitsText(units) == UnitsText(units);
        UnitsScan(units, delimiters, afterBlank, None);
      }
  }

  lemma NoUnits()
    ensures UnitsText([]) == ""
  {
  }

  // ----- Lines -----

  lemma RunsOfSegment(input: string, classes: seq<Class>, at: nat, n: nat, kind: Class)
    requires |classes| == |input| && n > 0 && at + n <= |input|
    requires forall i :: at <= i < at + n ==> classes[i] == kind
    requires at + n < |input| ==> classes[at + n] != kind
    ensures Runs(input, classes, at)
         == (if kind.Blank? then [] else [Token(input[at..at + n], at)]) + Runs(input, classes, at + n)
  {
    if kind.Blank? {
      BlankRun(input, classes, at, n);
    } else {
      RunEndIs(classes, at, at + n);
    }
  }

  lemma {:induction false} BlankRun(input: string, classes: seq<Class>, at: nat, n: nat)
    requires |classes| == |input| && at + n <= |input| && forall i :: at <= i < at + n ==> classes[i].Blank?
    ensures Runs(input, classes, at) == [] + Runs(input, classes, at + n)
    decreases n
  {
    if n > 0 {
      BlankRun(input, classes, at + 1, n - 1);
    }
  }

  lemma {:induction false} LineRuns(input: string, classes: seq<Class>, delimiters: string, segments: seq<Segment>,
                                    at: nat, afterBlank: bool)
    requires |classes| == |input| && at <= |input| && input[at..] == LineText(segments)
    requires LegalLine(segments, delimiters, afterBlank)
    requires classes[at..] == Classes(input[at..], delimiters, afterBlank, None, false)
    ensures Runs(input, classes, at) == Expected(segments, at)
    decreases |segments|
  {
    hide Classes, Runs, Scans, Segment.Legal, Segment.Text;
    if segments == [] {
      assert at == |input|;
      NoRuns(input, classes);
    } else {
      var s, rest := segments[0], segments[1..];
      SegmentRuns(input, classes, delimiters, s, rest, at, afterBlank);
      LineRuns(input, classes, delimiters, rest, at + |s.Text()|, s.Blanks?);
    }
  }

  /** One segment of the line. */
  lemma SegmentRuns(input: string, classes: seq<Class>, delimiters: string, s: Segment, rest: seq<Segment>, at: nat,
                    afterBlank: bool)
    requires |classes| == |input| && at <= |input| && input[at..] == s.Text() + LineText(rest)
    requires s.Legal(delimiters, afterBlank) && LegalLine(rest, delimiters, s.Blanks?)
    requires rest != [] ==> s.Kind() != rest[0].Kind()
    requires classes[at..] == Classes(input[at..], delimiters, afterBlank, None, false)
    ensures var next := at + |s.Text()|;
            && next <= |input| && input[next..] == LineText(rest)
            && classes[next..] == Classes(input[next..], delimiters, s.Blanks?, None, false)
            && Runs(input, classes, at)
               == (if s.Blanks? then [] else [Token(s.Text(), at)]) + Runs(input, classes, next)
  {
    hide Classes, Runs, Scans, LegalLine, LineText, Segment.Text;
    var text := s.Text();
    var n := |text|;
    assert n > 0;
    hide Segment.Legal;
    SegmentScans(s, delimiters, afterBlank);
    ScanApplies(text, LineText(rest), delimiters, afterBlank, s.Kind(), s.Blanks?);
    Located(input, at, text, LineText(rest));
    Located(classes, at, Repeated(s.Kind(), n), Classes(LineText(rest), delimiters, s.Blanks?, None, false));
    if rest == [] {
      NoText();
    } else {
      FirstKind(rest, delimiters, s.Blanks?);
      assert classes[at + n] == classes[at + n..][0];
    }
    RunsOfSegment(input, classes, at, n, s.Kind());
  }

  lemma NoText()
    ensures LineText([]) == ""
  {
  }

  lemma NoRuns(input: string, classes: seq<Class>)
    requires |classes| == |input|
    ensures Runs(input, classes, |input|) == []
  {
  }

  lemma ScanApplies(text: string, rest: string, delimiters: string, between: bool, kind: Class, between': bool)
    requires Scans(text, delimiters, between, None, kind, between', None)
    ensures Classes(text + rest, delimiters, between, None, false)
         == Repeated(kind, |text|) + Classes(rest, delimiters, between', None, false)
  {
    assert ScansBefore(text, rest, delimiters, between, None, kind, between', None);
  }

  lemma Located<T>(s: seq<T>, at: nat, x: seq<T>, rest: seq<T>)
    requires at <= |s| && s[at..] == x + rest
    ensures at + |x| <= |s| && s[at..at + |x|] == x && s[at + |x|..] == rest
    ensures forall i :: at <= i < at + |x| ==> s[i] == x[i - at]
  {
    assert s[at..at + |x|] == s[at..][..|x|];
    assert s[at + |x|..] == s[at..][|x|..];
    forall i | at <= i < at + |x| ensures s[i] == x[i - at] {
      assert s[i] == s[at..][i - at];
    }
  }

  /** The text of a legal line that goes on begins with a character of its first kind. */
  lemma FirstKind(segments: seq<Segment>, delimiters: string, afterBlank: bool)
    requires segments != [] && LegalLine(segments, delimiters, afterBlank)
    ensures LineText(segments) != ""
    ensures Classes(LineText(segments), delimiters, afterBlank, None, false)[0] == segments[0].Kind()
  {
    hide Classes, Scans;
    SegmentScans(segments[0], delimiters, afterBlank);
    ScanApplies(segments[0].Text(), LineText(segments[1..]), delimiters, afterBlank, segments[0].Kind(),
                segments[0].Blanks?);
  }

  /** A line written out of blanks, delimiters and words is read as these delimiters and words, each
      where it stands. */
  lemma LineTokens(segments: seq<Segment>, delimiters: string)
    requires LegalLine(segments, delimiters, true)
    ensures Tokens(LineText(segments), delimiters) == Expected(segments, 0)
  {
    hide Classes;
    var input := LineText(segments);
    var classes := Classes(input, delimiters, true, None, false);
    assert input[0..] == input && classes[0..] == classes;
    LineRuns(input, classes, delimiters, segments, 0, true);
  }
}
