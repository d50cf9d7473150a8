/** Brace expansion: counts computed before anything is generated, recursive children, and a
    cartesian product that is refused when it would be too large. */
module BraceExpansion {
  import opened Wrappers
  import opened Numerals
  import opened Utf8
  import opened Division
  import Arithmetic
  import opened WrappingDescent

  const MAX_BRACE_EXPANSION_FIELDS: nat := 0x10_0000

  datatype Piece = Text(text: string) | Group(members: seq<Member>)

  datatype Member =
    | NumberSequence(start: i64, end: i64, increment: i64)
    | CharSequence(first: char, last: char, increment: i64)
    | Child(pieces: seq<Piece>)

  /** A number of fields known beforehand, and the fields themselves; none when generating them
      leaves the machine integers in a build that checks for overflow (a panic), or never ends. */
  datatype Lazy = Lazy(count: nat, fields: Option<seq<string>>)

  datatype Expansion<+T> = Ready(value: T) | TooMuchData | Diverges

  // ----- Sequences -----

  function Step(increment: i64): (n: nat)
    ensures 1 <= n <= I64_MAX + 1
  {
    if increment == 0 then 1 else Abs(increment)
  }

  function SatMin(n: nat): nat { if n < USIZE_MAX then n else USIZE_MAX }

  /** The steps of an inclusive sequence. */
  function Steps(start: int, end: int, step: nat): (n: nat)
    requires step > 0
    ensures n >= 1
  {
    Abs(end - start) / step + 1
  }

  function SequenceLen(start: int, end: int, step: nat): nat
    requires step > 0
  {
    SatMin(Steps(start, end, step))
  }

  /** start, start + step, ... up to `end`. */
  function Up(start: int, end: int, step: nat): seq<int>
    requires step > 0
    decreases end - start
  {
    if start > end then [] else [start] + Up(start + step, end, step)
  }

  /** start, start - step, ... down to `end`; nothing when the step after the last number would
      leave the signed 64-bit range. */
  function Down(start: int, end: int, step: nat): Option<seq<int>>
    requires step > 0
    decreases start - end
  {
    var next := start - step;
    if next < I64_MIN then None
    else if next < end then Some([start])
    else
      match Down(next, end, step)
      case Some(rest) => Some([start] + rest)
      case None => None
  }

  /** With overflow checks, leaving the signed 64-bit range is a failure, and a descending step of
      2^63, which turns negative in the cast to a signed integer, climbs until it overflows; without
      them the descent wraps around. */
  function Numbers(start: i64, end: i64, step: nat, checks: bool): Option<seq<int>>
    requires step > 0
  {
    if start <= end then Some(Up(start, end, step))
    else if !checks then Descend(start, end, step, WrappingDescent.MODULUS)
    else if step > I64_MAX then None
    else Down(start, end, step)
  }

  const U32_MODULUS: nat := 0x1_0000_0000

  /** Position among the scalar values, which skip the surrogates. */
  function Rank(c: char): (r: nat)
    ensures r < 0x10_F800
  {
    if c as int < 0xD800 then c as int else c as int - 0x800
  }

  function FromRank(r: nat): char
    requires r < 0x10_F800
  {
    if r < 0xD800 then r as char else (r + 0x800) as char
  }

  /** Ascending character ranges step over ranks. */
  function UpChars(r: nat, end: nat, step: nat): seq<char>
    requires step > 0 && end < 0x10_F800
    decreases end - r
  {
    if r > end then [] else [FromRank(r)] + UpChars(r + step, end, step)
  }

  /** Subtraction from a code point in 32 bits. */
  function Below(c: char, step: nat): (n: nat)
    requires step < U32_MODULUS
  {
    if step <= c as int then c as int - step else c as int - step + U32_MODULUS
  }

  const CHAR_END: nat := 0x11_0000

  /** Descending ones subtract from the code point until the result is no character or beyond
      the end; subtracting below zero is an overflow, which fails if it is checked for. Otherwise a
      step near 2^32 wraps to a larger code point every time. */
  function DownChars(c: char, end: char, step: nat, checks: bool): Option<seq<char>>
    requires 0 < step < U32_MODULUS
    decreases if step <= CHAR_END then c as int else CHAR_END - c as int
  {
    var next := Below(c, step);
    if checks && step > c as int then None
    else if !IsScalarValue(next) || next < end as int then Some([c])
    else
      match DownChars(next as char, end, step, checks)
      case Some(rest) => Some([c] + rest)
      case None => None
  }

  /** The descending step is cut to 32 bits; a step cut to zero repeats the first character for
      ever. */
  function Chars(first: char, last: char, step: nat, checks: bool): Option<seq<char>>
    requires step > 0
  {
    if first <= last then Some(UpChars(Rank(first), Rank(last), step))
    else if step % U32_MODULUS == 0 then None
    else DownChars(first, last, step % U32_MODULUS, checks)
  }

  function NumberStrings(s: seq<int>): seq<string> {
    seq(|s|, i requires 0 <= i < |s| => IntToString(s[i]))
  }

  function CharStrings(s: seq<char>): seq<string> {
    seq(|s|, i requires 0 <= i < |s| => [s[i]])
  }

  function LazyNumbers(start: i64, end: i64, increment: i64, checks: bool): Lazy {
    Lazy(SequenceLen(start, end, Step(increment)),
         match Numbers(start, end, Step(increment), checks)
         case Some(s) => Some(NumberStrings(s))
         case None => None)
  }

  function LazyChars(first: char, last: char, increment: i64, checks: bool): Lazy {
    Lazy(SequenceLen(first as int, last as int, Step(increment)),
         match Chars(first, last, Step(increment), checks)
         case Some(s) => Some(CharStrings(s))
         case None => None)
  }

  // ----- Combining -----

  /** Every way to take one string from each list, joined; the last list varies fastest. */
  function Product(lists: seq<seq<string>>): seq<string> {
    if lists == [] then [""] else Pair(lists[0], Product(lists[1..]))
  }

  function Pair(heads: seq<string>, tails: seq<string>): seq<string> {
    if heads == [] then [] else Prefixed(heads[0], tails) + Pair(heads[1..], tails)
  }

  function Prefixed(head: string, tails: seq<string>): (r: seq<string>)
    ensures |r| == |tails|
  {
    seq(|tails|, i requires 0 <= i < |tails| => head + tails[i])
  }

  function Chain(a: Lazy, b: Lazy): Lazy {
    Lazy(SatMin(a.count + b.count),
         if a.fields.Some? && b.fields.Some? then Some(a.fields.value + b.fields.value) else None)
  }

  function ExpandMember(m: Member, checks: bool): Expansion<Lazy>
    decreases m, 0
  {
    match m
    case NumberSequence(start, end, increment) => Ready(LazyNumbers(start, end, increment, checks))
    case CharSequence(first, last, increment) => Ready(LazyChars(first, last, increment, checks))
    case Child(pieces) =>
      match Combine(pieces, checks)
      case Ready(child) => Ready(Lazy(SatMin(|child|), Some(child)))
      case TooMuchData => TooMuchData
      case Diverges => Diverges
  }

  function ExpandMembers(members: seq<Member>, checks: bool): Expansion<Lazy>
    decreases members, 0
  {
    if members == [] then Ready(Lazy(0, Some([])))
    else
      match ExpandMember(members[0], checks)
      case TooMuchData => TooMuchData
      case Diverges => Diverges
      case Ready(first) =>
        match ExpandMembers(members[1..], checks)
        case TooMuchData => TooMuchData
        case Diverges => Diverges
        case Ready(rest) => Ready(Chain(first, rest))
  }

  function ExpandPiece(p: Piece, checks: bool): Expansion<Lazy>
    decreases p, 1
  {
    match p
    case Text(text) => Ready(Lazy(1, Some([text])))
    case Group(members) => ExpandMembers(members, checks)
  }

  /** The lists of all pieces, each checked before it is generated. */
  function Collect(pieces: seq<Piece>, total: nat, checks: bool): Expansion<seq<seq<string>>>
    decreases pieces, 0
  {
    if pieces == [] then Ready([])
    else
      match ExpandPiece(pieces[0], checks)
      case TooMuchData => TooMuchData
      case Diverges => Diverges
      case Ready(piece) =>
        if piece.count > MAX_BRACE_EXPANSION_FIELDS then TooMuchData
        else if SatMin(total * piece.count) > MAX_BRACE_EXPANSION_FIELDS then TooMuchData
        else if piece.fields.None? then Diverges
        else
          match Collect(pieces[1..], SatMin(total * piece.count), checks)
          case TooMuchData => TooMuchData
          case Diverges => Diverges
          case Ready(rest) => Ready([piece.fields.value] + rest)
  }

  function Combine(pieces: seq<Piece>, checks: bool): Expansion<seq<string>>
    decreases pieces, 1
  {
    match Collect(pieces, 1, checks)
    case Ready(lists) => Ready(Product(lists))
    case TooMuchData => TooMuchData
    case Diverges => Diverges
  }

  lemma NothingBefore(e: Expansion<seq<seq<string>>>)
    ensures e == match e case Ready(rest) => Ready([] + rest) case other => other
  {
    if e.Ready? {
      assert [] + e.value == e.value;
    }
  }

  /** The loop that checks and generates piece by piece. */
  method GenerateAndCombine(pieces: seq<Piece>, checks: bool) returns (r: Expansion<seq<string>>)
    ensures r == Combine(pieces, checks)
  {
    var runningTotal: nat := 1;
    var expansions: seq<seq<string>> := [];
    assert pieces[0..] == pieces;
    NothingBefore(Collect(pieces, 1, checks));
    for i := 0 to |pieces|
      invariant Collect(pieces, 1, checks)
             == match Collect(pieces[i..], runningTotal, checks)
                case Ready(rest) => Ready(expansions + rest)
                case other => other
    {
      assert pieces[i..][0] == pieces[i] && pieces[i..][1..] == pieces[i + 1..];
      var expanded := ExpandPiece(pieces[i], checks);
      if expanded.TooMuchData? { return TooMuchData; }
      if expanded.Diverges? { return Diverges; }
      var piece := expanded.value;
      if piece.count > MAX_BRACE_EXPANSION_FIELDS {
        return TooMuchData;
      }
      runningTotal := SatMin(runningTotal * piece.count);
      if runningTotal > MAX_BRACE_EXPANSION_FIELDS {
        return TooMuchData;
      }
      if piece.fields.None? {
        return Diverges;
      }
      ghost var rest := Collect(pieces[i + 1..], runningTotal, checks);
      if rest.Ready? {
        assert expansions + ([piece.fields.value] + rest.value) == expansions + [piece.fields.value] + rest.value;
      }
      expansions := expansions + [piece.fields.value];
    }
    assert expansions + [] == expansions;
    r := Ready(Product(expansions));
  }

  // ----- Counts are exact -----

  lemma {:induction false} UpLength(start: int, end: int, step: nat)
    requires step > 0 && start <= end
    ensures |Up(start, end, step)| == (end - start) / step + 1
    decreases end - start
  {
    DivStep(end - start, step);
    if start + step <= end {
      UpLength(start + step, end, step);
    }
  }

  /** The k-th number of an ascending sequence. */
  lemma {:induction false} UpAt(start: int, end: int, step: nat, k: nat)
    requires step > 0 && k < |Up(start, end, step)|
    ensures Up(start, end, step)[k] == start + k * step <= end
    decreases k
  {
    if k > 0 {
      UpAt(start + step, end, step, k - 1);
      assert start + k * step == (start + step) + (k - 1) * step;
    }
  }

  lemma {:induction false} DownLength(start: int, end: int, step: nat)
    requires step > 0 && start >= end && Down(start, end, step).Some?
    ensures |Down(start, end, step).value| == (start - end) / step + 1
    decreases start - end
  {
    DivStep(start - end, step);
    if start - step >= end {
      DownLength(start - step, end, step);
    }
  }

  lemma {:induction false} DownAt(start: int, end: int, step: nat, k: nat)
    requires step > 0 && start >= end && Down(start, end, step).Some? && k < |Down(start, end, step).value|
    ensures Down(start, end, step).value[k] == start - k * step >= end
    decreases k
  {
    if k > 0 {
      DownAt(start - step, end, step, k - 1);
      assert start - k * step == (start - step) - (k - 1) * step;
    }
  }

  /** The step after the last number of a descent stays in the signed 64-bit range. */
  predicate StaysInRange(start: int, end: int, step: nat)
    requires step > 0
  {
    (start - end) % step + end - step >= I64_MIN
  }

  /** A descending sequence ends without overflow exactly when the step after its last number
      stays in range. */
  lemma {:induction false} DownEnds(start: int, end: int, step: nat)
    requires step > 0 && start >= end
    ensures Down(start, end, step).Some? <==> StaysInRange(start, end, step)
    decreases start - end
  {
    DivStep(start - end, step);
    if start - step >= end {
      DownEnds(start - step, end, step);
      RemainderBound(start - step - end, step);
    }
  }

  /** Whether a number sequence ends: within the machine integers if overflow is checked for, and
      otherwise at all, which is when some number below its end differs from its start by a
      multiple of the largest power of two in the step. */
  predicate NumbersEnd(start: i64, end: i64, step: nat, checks: bool)
    requires step > 0
  {
    || start <= end
    || if checks then step <= I64_MAX && StaysInRange(start, end, step) else Lowest(start, TwoPart(step)) < end
  }

  lemma NumbersEndExactly(start: i64, end: i64, step: nat, checks: bool)
    requires 0 < step <= I64_MAX + 1
    ensures Numbers(start, end, step, checks).Some? <==> NumbersEnd(start, end, step, checks)
  {
    hide Descend, Down, StaysInRange, StopsAfter;
    if start > end {
      DownEnds(start, end, step);
      DescendIsExact(start, end, step);
      StopsExactly(start, end, step);
    }
  }

  /** The number of numbers in a sequence: the quotient that is announced, unless the descent wraps
      around; then the numbers up to the first one below the end. */
  ghost function NumberFields(start: i64, end: i64, step: nat): (n: nat)
    requires step > 0
    ensures n >= 1
  {
    if start <= end || StaysInRange(start, end, step) then Steps(start, end, step)
    else if exists k: nat :: StopsAfter(start, end, step, k) then
      var k: nat :| StopsAfter(start, end, step, k);
      k
    else 1
  }

  /** The numbers before the end, which need no wrapping. */
  lemma VisitedInRange(start: i64, end: i64, step: nat, k: nat)
    requires start >= end && step > 0 && k <= (start - end) / step
    ensures Visited(start, step, k) == start - k * step >= end
  {
    var q := (start - end) / step;
    assert start - end == q * step + (start - end) % step;
    assert (q - k) * step >= 0;
    assert (q - k) * step == q * step - k * step;
    assert 0 <= k * step;
  }

  /** The one after them, which wraps around when it is out of range. */
  lemma VisitedPastEnd(start: i64, end: i64, step: nat)
    requires start >= end && 0 < step <= I64_MAX + 1
    ensures Visited(start, step, Steps(start, end, step)) < end <==> StaysInRange(start, end, step)
  {
    var q := (start - end) / step;
    assert start - end == q * step + (start - end) % step;
    assert (q + 1) * step == q * step + step;
    assert start - (q + 1) * step == end + (start - end) % step - step;
  }

  /** A descent yields the announced number of numbers exactly when it does not wrap around, and
      otherwise more. */
  lemma StopLength(start: i64, end: i64, step: nat, k: nat)
    requires start > end && 0 < step <= I64_MAX + 1 && StopsAfter(start, end, step, k)
    ensures k >= Steps(start, end, step)
    ensures k == Steps(start, end, step) <==> StaysInRange(start, end, step)
  {
    hide Visited, StaysInRange;
    var n := Steps(start, end, step);
    forall i: nat | i < n ensures Visited(start, step, i) >= end {
      VisitedInRange(start, end, step, i);
    }
    VisitedPastEnd(start, end, step);
    assert k >= n;
    assert k > n ==> Visited(start, step, n) >= end;
  }

  lemma NumbersLength(start: i64, end: i64, step: nat, checks: bool)
    requires 0 < step <= I64_MAX + 1 && Numbers(start, end, step, checks).Some?
    ensures var n := |Numbers(start, end, step, checks).value|;
            && n == NumberFields(start, end, step)
            && n >= Steps(start, end, step)
            && (n == Steps(start, end, step) <==> start <= end || StaysInRange(start, end, step))
  {
    hide Descend, StopsAfter, StaysInRange;
    if start <= end {
      UpLength(start, end, step);
    } else if checks {
      DownEnds(start, end, step);
      DownLength(start, end, step);
    } else {
      DescendIsExact(start, end, step);
      var n := |Numbers(start, end, step, checks).value|;
      StopLength(start, end, step, n);
      forall k | StopsAfter(start, end, step, k) ensures k == n {
        StopsOnce(start, end, step, k, n);
      }
    }
  }

  /** For number sequences the count is right when the sequence does not wrap around, which it
      never does if overflow is checked for; otherwise more numbers come than were announced. */
  lemma NumberCount(start: i64, end: i64, increment: i64, checks: bool)
    ensures var (lazy, step) := (LazyNumbers(start, end, increment, checks), Step(increment));
            lazy.fields.Some? ==>
              var n := |lazy.fields.value|;
              && lazy.count == SatMin(Steps(start, end, step))
              && n == NumberFields(start, end, step) && n >= Steps(start, end, step)
              && (n == Steps(start, end, step) <==> start <= end || StaysInRange(start, end, step))
              && (checks ==> start <= end || StaysInRange(start, end, step))
  {
    hide Descend, Down, StaysInRange, NumberFields;
    var step := Step(increment);
    if Numbers(start, end, step, checks).Some? {
      NumbersLength(start, end, step, checks);
      NumbersEndExactly(start, end, step, checks);
    }
  }

  lemma {:induction false} UpCharsLength(r: nat, end: nat, step: nat)
    requires step > 0 && r <= end < 0x10_F800
    ensures |UpChars(r, end, step)| == (end - r) / step + 1
    decreases end - r
  {
    DivStep(end - r, step);
    if r + step <= end {
      UpCharsLength(r + step, end, step);
    }
  }

  /** The descent meets a surrogate before it passes its end. */
  predicate MeetsSurrogate(c: int, end: char, step: nat)
    requires step > 0
    decreases c
  {
    var next := c - step;
    next >= end as int && (!IsScalarValue(next) || MeetsSurrogate(next, end, step))
  }

  /** The same without the descent: coming from above the surrogates, the first number below
      their end is one of them and not yet past the end. */
  predicate SurrogateAhead(c: int, end: char, step: nat)
    requires step > 0
  {
    && c >= 0xE000
    && var next := 0xE000 + (c - 0xE000) % step - step;
       next >= end as int && next >= 0xD800
  }

  lemma {:induction false} SurrogateMet(c: int, end: char, step: nat)
    requires step > 0 && IsScalarValue(c) && c >= end as int
    ensures MeetsSurrogate(c, end, step) <==> SurrogateAhead(c, end, step)
    decreases c
  {
    var next := c - step;
    if c >= 0xE000 {
      DivStep(c - 0xE000, step);
    }
    if next >= end as int && IsScalarValue(next) {
      SurrogateMet(next, end, step);
    }
  }

  /** The number of characters of a descent whose step is too short to wrap around. */
  function DescentFields(c: int, end: char, step: nat): (n: nat)
    requires step > 0 && c >= end as int
    ensures n >= 1
  {
    if SurrogateAhead(c, end, step) then (c - 0xE000) / step + 1 else (c - end as int) / step + 1
  }

  lemma DescentStep(c: char, end: char, step: nat)
    requires 0 < step <= CHAR_END && c >= end
    ensures var (next, s) := (c as int - step, DownChars(c, end, step, false));
            if next >= end as int && IsScalarValue(next) then
              && (MeetsSurrogate(c as int, end, step) <==> MeetsSurrogate(next, end, step))
              && var rest := DownChars(next as char, end, step, false);
                 rest.Some? ==> s.Some? && |s.value| == 1 + |rest.value|
            else s == Some([c]) && (MeetsSurrogate(c as int, end, step) <==> next >= end as int)
  {
  }

  lemma {:induction false} DescentLength(c: char, end: char, step: nat)
    requires 0 < step <= CHAR_END && c >= end
    ensures DownChars(c, end, step, false).Some?
    ensures |DownChars(c, end, step, false).value|
         == if MeetsSurrogate(c as int, end, step) then (c as int - 0xE000) / step + 1
            else (c as int - end as int) / step + 1
    decreases c as int
  {
    hide DownChars, MeetsSurrogate;
    var next := c as int - step;
    DescentStep(c, end, step);
    DivStep(c as int - end as int, step);
    if c as int >= 0xE000 {
      DivStep(c as int - 0xE000, step);
    } else {
      MeetsFromAbove(c as int, end, step);
    }
    if next >= end as int && IsScalarValue(next) {
      DescentLength(next as char, end, step);
      if next < 0xD800 {
        MeetsFromAbove(next, end, step);
      }
    }
  }

  lemma {:induction false} MeetsFromAbove(c: int, end: char, step: nat)
    requires step > 0 && 0 <= c < 0xD800
    ensures !MeetsSurrogate(c, end, step)
    decreases c
  {
    if c - step >= end as int {
      MeetsFromAbove(c - step, end, step);
    }
  }

  /** A surrogate ahead makes a descent shorter than its quotient. */
  lemma SurrogateShortens(c: int, end: char, step: nat)
    requires step > 0 && SurrogateAhead(c, end, step)
    ensures (c - 0xE000) / step < (c - end as int) / step
  {
    var q, r := (c - 0xE000) / step, (c - 0xE000) % step;
    var left := r + (0xE000 - end as int) - step;
    assert c - 0xE000 == q * step + r && (q + 1) * step == q * step + step;
    assert c - end as int == (q + 1) * step + left;
    QuotientAtLeast(c - end as int, step, q + 1, left);
  }

  lemma QuotientAtLeast(x: int, d: int, q: int, left: int)
    requires d > 0 && x == q * d + left && left >= 0
    ensures x / d >= q
  {
    var q', r' := x / d, x % d;
    assert x == q' * d + r';
    assert (q - q') * d == q * d - q' * d;
    if q > q' {
      AtLeastOnce(q - q', d);
    }
  }

  /** Without checks a longer step can only climb: by d = 2^32 - step, until a surrogate or the end
      of the code points stops it. */
  predicate SurrogateAbove(c: int, d: nat)
    requires d > 0
  {
    c < 0xD800 && 0xD7FF - (0xD7FF - c) % d + d < 0xE000
  }

  function ClimbFields(c: int, d: nat): (n: nat)
    requires d > 0 && c <= 0x10_FFFF
    ensures n >= 1
  {
    if SurrogateAbove(c, d) then (0xD7FF - c) / d + 1 else (0x10_FFFF - c) / d + 1
  }

  lemma {:induction false} ClimbLength(c: char, end: char, step: nat)
    requires CHAR_END < step < U32_MODULUS && c >= end
    ensures DownChars(c, end, step, false).Some?
    ensures |DownChars(c, end, step, false).value| == ClimbFields(c as int, U32_MODULUS - step)
    decreases CHAR_END - c as int
  {
    var d: nat := U32_MODULUS - step;
    DivStep(0x10_FFFF - c as int, d);
    if c as int < 0xD800 {
      DivStep(0xD7FF - c as int, d);
    }
    if IsScalarValue(c as int + d) {
      ClimbLength((c as int + d) as char, end, step);
    }
  }

  /** Checking for overflow makes no other difference than failing. */
  lemma {:induction false} ChecksOnlyFail(c: char, end: char, step: nat)
    requires 0 < step < U32_MODULUS
    ensures DownChars(c, end, step, true).Some? ==> DownChars(c, end, step, true) == DownChars(c, end, step, false)
    decreases if step <= CHAR_END then c as int else CHAR_END - c as int
  {
    var next := Below(c, step);
    if step <= c as int && IsScalarValue(next) && next >= end as int {
      ChecksOnlyFail(next as char, end, step);
    }
  }

  /** A descent ends without overflow exactly when a surrogate stops it or the step after its
      last character stays at zero or above. */
  lemma {:induction false} DownCharsEnds(c: char, end: char, step: nat)
    requires 0 < step < U32_MODULUS && c >= end
    ensures DownChars(c, end, step, true).Some?
       <==> MeetsSurrogate(c as int, end, step) || (c as int - end as int) % step + end as int - step >= 0
    decreases c as int
  {
    var next := c as int - step;
    DivStep(c as int - end as int, step);
    if next >= end as int && IsScalarValue(next) {
      DownCharsEnds(next as char, end, step);
    }
  }

  /** Whether a character sequence ends: a cut step of zero never does, and with checks the
      descent must stay at zero or above. */
  predicate CharsEnd(first: char, last: char, step: nat, checks: bool)
    requires step > 0
  {
    var cut := step % U32_MODULUS;
    || first <= last
    || (cut != 0
        && (!checks || SurrogateAhead(first as int, last, cut)
            || (first as int - last as int) % cut + last as int - cut >= 0))
  }

  lemma CharsEndExactly(first: char, last: char, step: nat, checks: bool)
    requires step > 0
    ensures Chars(first, last, step, checks).Some? <==> CharsEnd(first, last, step, checks)
  {
    var cut := step % U32_MODULUS;
    if first > last && cut != 0 {
      DownCharsEnds(first, last, cut);
      SurrogateMet(first as int, last, cut);
      if cut <= CHAR_END {
        DescentLength(first, last, cut);
      } else {
        ClimbLength(first, last, cut);
      }
    }
  }

  /** The number of characters in a sequence that ends, by arithmetic. */
  function CharFields(first: char, last: char, step: nat): (n: nat)
    requires step > 0
    ensures n >= 1
  {
    var cut := step % U32_MODULUS;
    if first <= last then Abs(Rank(last) - Rank(first)) / step + 1
    else if cut == 0 then 1
    else if cut <= CHAR_END then DescentFields(first as int, last, cut)
    else ClimbFields(first as int, U32_MODULUS - cut)
  }

  /** Exactly when the count computed for a character sequence is the number of characters the
      sequence yields. Ascending: skipping the surrogates makes no difference to the quotient.
      Descending, with a step below the number of code points: no surrogate stops it. Descending
      with a longer step, for which one field is announced: one step in 32 bits leads out. */
  predicate CharCountRight(first: char, last: char, increment: i64) {
    var step := Step(increment);
    var cut := step % U32_MODULUS;
    if first <= last then (Rank(last) - Rank(first)) / step == (last as int - first as int) / step
    else if cut == 0 then false
    else if step <= CHAR_END then !SurrogateAhead(first as int, last, step)
    else !IsScalarValue(Below(first, cut)) || Below(first, cut) < last as int
  }

  lemma RankMonotone(a: char, b: char)
    requires a <= b
    ensures Rank(a) <= Rank(b)
  {
  }

  lemma DescendingFields(first: char, last: char, step: nat, checks: bool)
    requires step > 0 && first > last && Chars(first, last, step, checks).Some?
    ensures Chars(first, last, step, false).Some?
    ensures |Chars(first, last, step, checks).value| == |Chars(first, last, step, false).value|
                                                     == CharFields(first, last, step)
  {
    hide SurrogateAhead, ClimbFields;
    var cut := step % U32_MODULUS;
    ChecksOnlyFail(first, last, cut);
    if cut <= CHAR_END {
      DescentLength(first, last, cut);
      SurrogateMet(first as int, last, cut);
    } else {
      ClimbLength(first, last, cut);
    }
    DownCharsOne(first, last, cut);
  }

  lemma DownCharsOne(c: char, end: char, step: nat)
    requires 0 < step < U32_MODULUS && c >= end && DownChars(c, end, step, false).Some?
    ensures var n := |DownChars(c, end, step, false).value|;
            n >= 1 && (n == 1 <==> !IsScalarValue(Below(c, step)) || Below(c, step) < end as int)
  {
    var next := Below(c, step);
    if IsScalarValue(next) && next >= end as int {
      assert next as char >= end;
      DownCharsNotEmpty(next as char, end, step);
    }
  }

  lemma DownCharsNotEmpty(c: char, end: char, step: nat)
    requires 0 < step < U32_MODULUS
    ensures var s := DownChars(c, end, step, false); s.Some? ==> s.value != []
  {
  }

  lemma DescendingCount(first: char, last: char, increment: i64)
    requires first > last && Step(increment) % U32_MODULUS != 0
    ensures CharFields(first, last, Step(increment)) == Steps(first as int, last as int, Step(increment))
       <==> CharCountRight(first, last, increment)
  {
    hide SurrogateAhead, ClimbFields;
    var step := Step(increment);
    var cut := step % U32_MODULUS;
    CharsEndExactly(first, last, step, false);
    DescendingFields(first, last, step, false);
    if step <= CHAR_END {
      DivStep(step, U32_MODULUS);
      if SurrogateAhead(first as int, last, step) {
        SurrogateShortens(first as int, last, step);
      }
    } else {
      DivStep(first as int - last as int, step);
      DownCharsOne(first, last, cut);
    }
  }

  /** Which number of characters a sequence yields, and exactly when it is the one announced. */
  lemma CharCount(first: char, last: char, increment: i64, checks: bool)
    ensures var (lazy, step) := (LazyChars(first, last, increment, checks), Step(increment));
            && lazy.count == Steps(first as int, last as int, step)
            && (lazy.fields.Some? ==>
                  && |lazy.fields.value| == CharFields(first, last, step)
                  && (lazy.count == |lazy.fields.value| <==> CharCountRight(first, last, increment)))
  {
    hide SurrogateAhead, ClimbFields, DownChars;
    var step := Step(increment);
    QuotientBound(Abs(last as int - first as int), step);
    if first <= last {
      RankMonotone(first, last);
      UpCharsLength(Rank(first), Rank(last), step);
    } else if Chars(first, last, step, checks).Some? {
      DescendingFields(first, last, step, checks);
      DescendingCount(first, last, increment);
    }
  }

  /** In particular the count is right when the sequence stays on one side of the surrogates and
      a descending step is below the number of code points; and there a descent ends without
      overflow exactly when the step after its last character stays at zero or above. */
  lemma CharCountRightWhen(first: char, last: char, increment: i64)
    requires SameSide(first, last)
    requires first > last ==> Step(increment) <= CHAR_END
    ensures CharCountRight(first, last, increment)
    ensures first > last ==>
              (DownChars(first, last, Step(increment), true).Some?
               <==> (first as int - last as int) % Step(increment) + last as int - Step(increment) >= 0)
  {
    var step := Step(increment);
    if first > last {
      DivStep(step, U32_MODULUS);
      SurrogateMet(first as int, last, step);
      DownCharsEnds(first, last, step);
    } else {
      SameSideRanks(first, last);
    }
  }

  predicate SameSide(first: char, last: char) {
    (first as int < 0xD800 && last as int < 0xD800) || (first as int >= 0xE000 && last as int >= 0xE000)
  }

  /** On one side of the surrogates ranks differ as the code points do. */
  lemma SameSideRanks(first: char, last: char)
    requires SameSide(first, last)
    ensures Rank(last) - Rank(first) == last as int - first as int
  {
  }

  const HUGE_STEP: i64 := 0x1_0000_0001

  /** A step that only fits 64 bits is counted as it is written but taken modulo 2^32: one
      field is announced, and all letters come. */
  lemma CountWrongForHugeStep(checks: bool)
    ensures var lazy := LazyChars('z', 'a', HUGE_STEP, checks);
            lazy.count == 1 && lazy.fields.Some? && |lazy.fields.value| == 26
    ensures Steps('z' as int, 'a' as int, Step(HUGE_STEP)) == 1
  {
    hide DownChars;
    assert Step(HUGE_STEP) == HUGE_STEP && HUGE_STEP % U32_MODULUS == 1;
    DivStep(25, HUGE_STEP);
    CharCount('z', 'a', HUGE_STEP, checks);
    CharsEndExactly('z', 'a', HUGE_STEP, checks);
    assert (122 - 97) / 1 == 25 && (122 - 97) % 1 == 0;
  }

  // ----- The product, in order -----

  function Size(lists: seq<seq<string>>): nat {
    if lists == [] then 1 else |lists[0]| * Size(lists[1..])
  }

  lemma {:induction false} PairLength(heads: seq<string>, tails: seq<string>)
    ensures |Pair(heads, tails)| == |heads| * |tails|
  {
    if heads != [] {
      PairLength(heads[1..], tails);
      assert |heads| * |tails| == |tails| + (|heads| - 1) * |tails|;
    }
  }

  lemma {:induction false} ProductLength(lists: seq<seq<string>>)
    ensures |Product(lists)| == Size(lists)
  {
    if lists != [] {
      ProductLength(lists[1..]);
      PairLength(lists[0], Product(lists[1..]));
    }
  }

  lemma {:induction false} PairAt(heads: seq<string>, tails: seq<string>, i: nat, j: nat)
    requires i < |heads| && j < |tails|
    ensures i * |tails| + j < |Pair(heads, tails)|
    ensures Pair(heads, tails)[i * |tails| + j] == heads[i] + tails[j]
  {
    PairLength(heads, tails);
    PairLength(heads[1..], tails);
    if i > 0 {
      PairAt(heads[1..], tails, i - 1, j);
      assert i * |tails| + j == |tails| + ((i - 1) * |tails| + j);
    }
  }

  /** One choice per list. */
  predicate IsChoice(lists: seq<seq<string>>, digits: seq<nat>) {
    |digits| == |lists| && forall k :: 0 <= k < |lists| ==> digits[k] < |lists[k]|
  }

  /** The choice read as a number in the mixed radix of the list lengths, last digit lowest. */
  function Index(lists: seq<seq<string>>, digits: seq<nat>): nat
    requires IsChoice(lists, digits)
  {
    if lists == [] then 0 else digits[0] * Size(lists[1..]) + Index(lists[1..], digits[1..])
  }

  function Chosen(lists: seq<seq<string>>, digits: seq<nat>): string
    requires IsChoice(lists, digits)
  {
    if lists == [] then "" else lists[0][digits[0]] + Chosen(lists[1..], digits[1..])
  }

  /** The field of a choice stands at the choice's index: lexicographic order, the last piece
      varying fastest. */
  lemma {:induction false} ProductAt(lists: seq<seq<string>>, digits: seq<nat>)
    requires IsChoice(lists, digits)
    ensures Index(lists, digits) < |Product(lists)|
    ensures Product(lists)[Index(lists, digits)] == Chosen(lists, digits)
  {
    if lists != [] {
      ProductAt(lists[1..], digits[1..]);
      ProductLength(lists[1..]);
      PairAt(lists[0], Product(lists[1..]), digits[0], Index(lists[1..], digits[1..]));
    }
  }

  // ----- The cap -----

  /** The expansion with no cap: what bash would produce. */
  function FullMember(m: Member, checks: bool): Option<seq<string>>
    decreases m, 0
  {
    match m
    case NumberSequence(start, end, increment) => LazyNumbers(start, end, increment, checks).fields
    case CharSequence(first, last, increment) => LazyChars(first, last, increment, checks).fields
    case Child(pieces) => Full(pieces, checks)
  }

  function FullMembers(members: seq<Member>, checks: bool): Option<seq<string>>
    decreases members, 0
  {
    if members == [] then Some([])
    else
      var first, rest := FullMember(members[0], checks), FullMembers(members[1..], checks);
      if first.Some? && rest.Some? then Some(first.value + rest.value) else None
  }

  function FullPiece(p: Piece, checks: bool): Option<seq<string>>
    decreases p, 1
  {
    match p
    case Text(text) => Some([text])
    case Group(members) => FullMembers(members, checks)
  }

  function FullLists(pieces: seq<Piece>, checks: bool): Option<seq<seq<string>>>
    decreases pieces, 0
  {
    if pieces == [] then Some([])
    else
      var first, rest := FullPiece(pieces[0], checks), FullLists(pieces[1..], checks);
      if first.Some? && rest.Some? then Some([first.value] + rest.value) else None
  }

  function Full(pieces: seq<Piece>, checks: bool): Option<seq<string>>
    decreases pieces, 1
  {
    match FullLists(pieces, checks) case Some(lists) => Some(Product(lists)) case None => None
  }

  // ----- What can be generated, and how many fields that is, from the arithmetic alone -----

  predicate Ends(pieces: seq<Piece>, checks: bool)
    decreases pieces, 1
  {
    pieces == [] || (EndsPiece(pieces[0], checks) && Ends(pieces[1..], checks))
  }

  predicate EndsPiece(p: Piece, checks: bool)
    decreases p, 1
  {
    p.Group? ==> EndsMembers(p.members, checks)
  }

  predicate EndsMembers(members: seq<Member>, checks: bool)
    decreases members, 0
  {
    members == [] || (EndsMember(members[0], checks) && EndsMembers(members[1..], checks))
  }

  predicate EndsMember(m: Member, checks: bool)
    decreases m, 0
  {
    match m
    case NumberSequence(start, end, increment) => NumbersEnd(start, end, Step(increment), checks)
    case CharSequence(first, last, increment) => CharsEnd(first, last, Step(increment), checks)
    case Child(pieces) => Ends(pieces, checks)
  }

  lemma {:induction false} EndsMemberExactly(m: Member, checks: bool)
    ensures FullMember(m, checks).Some? <==> EndsMember(m, checks)
    decreases m, 0
  {
    hide Numbers, Chars, NumbersEnd, CharsEnd;
    match m
    case NumberSequence(start, end, increment) => NumbersEndExactly(start, end, Step(increment), checks);
    case CharSequence(first, last, increment) => CharsEndExactly(first, last, Step(increment), checks);
    case Child(pieces) => EndsExactly(pieces, checks);
  }

  lemma {:induction false} EndsMembersExactly(members: seq<Member>, checks: bool)
    ensures FullMembers(members, checks).Some? <==> EndsMembers(members, checks)
    decreases members, 0
  {
    if members != [] {
      EndsMemberExactly(members[0], checks);
      EndsMembersExactly(members[1..], checks);
    }
  }

  lemma {:induction false} EndsPieceExactly(p: Piece, checks: bool)
    ensures FullPiece(p, checks).Some? <==> EndsPiece(p, checks)
    decreases p, 1
  {
    if p.Group? {
      EndsMembersExactly(p.members, checks);
    }
  }

  /** All fields can be generated, however many, exactly when every sequence ends. */
  lemma {:induction false} EndsExactly(pieces: seq<Piece>, checks: bool)
    ensures FullLists(pieces, checks).Some? <==> Ends(pieces, checks)
    ensures Full(pieces, checks).Some? <==> Ends(pieces, checks)
    decreases pieces, 1
  {
    if pieces != [] {
      EndsPieceExactly(pieces[0], checks);
      EndsExactly(pieces[1..], checks);
    }
  }

  /** The number of fields there are. */
  ghost function Fields(pieces: seq<Piece>): nat
    decreases pieces, 1
  {
    if pieces == [] then 1 else FieldsPiece(pieces[0]) * Fields(pieces[1..])
  }

  ghost function FieldsPiece(p: Piece): nat
    decreases p, 1
  {
    match p case Text(_) => 1 case Group(members) => FieldsMembers(members)
  }

  ghost function FieldsMembers(members: seq<Member>): nat
    decreases members, 0
  {
    if members == [] then 0 else FieldsMember(members[0]) + FieldsMembers(members[1..])
  }

  ghost function FieldsMember(m: Member): nat
    decreases m, 0
  {
    match m
    case NumberSequence(start, end, increment) => NumberFields(start, end, Step(increment))
    case CharSequence(first, last, increment) => CharFields(first, last, Step(increment))
    case Child(pieces) => Fields(pieces)
  }

  lemma {:induction false} MemberFields(m: Member, checks: bool)
    requires FullMember(m, checks).Some?
    ensures |FullMember(m, checks).value| == FieldsMember(m)
    decreases m, 0
  {
    hide LazyNumbers, LazyChars, NumberFields, CharFields, CharCountRight, StaysInRange, Steps;
    match m
    case NumberSequence(start, end, increment) => NumberCount(start, end, increment, checks);
    case CharSequence(first, last, increment) => CharCount(first, last, increment, checks);
    case Child(pieces) => FullFields(pieces, checks);
  }

  lemma {:induction false} MembersFields(members: seq<Member>, checks: bool)
    requires FullMembers(members, checks).Some?
    ensures |FullMembers(members, checks).value| == FieldsMembers(members)
    decreases members, 0
  {
    hide FullMember, FieldsMember;
    if members != [] {
      MemberFields(members[0], checks);
      MembersFields(members[1..], checks);
    }
  }

  lemma {:induction false} ListsFields(pieces: seq<Piece>, checks: bool)
    requires FullLists(pieces, checks).Some?
    ensures Size(FullLists(pieces, checks).value) == Fields(pieces)
    decreases pieces, 0
  {
    hide FullMembers, FieldsMembers;
    if pieces != [] {
      if pieces[0].Group? {
        MembersFields(pieces[0].members, checks);
      }
      ListsFields(pieces[1..], checks);
    }
  }

  /** The arithmetic number of fields is the true one, cap or no cap. */
  lemma {:induction false} FullFields(pieces: seq<Piece>, checks: bool)
    requires Full(pieces, checks).Some?
    ensures |Full(pieces, checks).value| == Fields(pieces)
    decreases pieces, 1
  {
    ListsFields(pieces, checks);
    ProductLength(FullLists(pieces, checks).value);
  }

  // ----- What the guards decide, from the arithmetic alone -----

  /** The number of fields announced: sequences by their quotients, nested braces, which have been
      expanded by then, by the fields they have. */
  ghost function Count(pieces: seq<Piece>): nat
    decreases pieces, 1
  {
    if pieces == [] then 1 else CountPiece(pieces[0]) * Count(pieces[1..])
  }

  ghost function CountPiece(p: Piece): nat
    decreases p, 1
  {
    match p case Text(_) => 1 case Group(members) => CountMembers(members)
  }

  ghost function CountMembers(members: seq<Member>): nat
    decreases members, 0
  {
    if members == [] then 0 else CountMember(members[0]) + CountMembers(members[1..])
  }

  ghost function CountMember(m: Member): nat {
    match m
    case NumberSequence(start, end, increment) => Steps(start, end, Step(increment))
    case CharSequence(first, last, increment) => Steps(first as int, last as int, Step(increment))
    case Child(pieces) => Fields(pieces)
  }

  /** What becomes of an expansion: the guards see to it piece by piece that no more fields are
      announced than the cap allows, so whether a sequence ends only matters if its piece passes;
      but nested braces are expanded before anything is counted. */
  datatype Fate = Produced | Refused | Stuck

  ghost function FateFrom(pieces: seq<Piece>, total: nat, checks: bool): Fate
    decreases pieces, 0
  {
    if pieces == [] then Produced
    else
      var p := pieces[0];
      if FatePiece(p, checks) != Produced then FatePiece(p, checks)
      else if CountPiece(p) > MAX_BRACE_EXPANSION_FIELDS || total * CountPiece(p) > MAX_BRACE_EXPANSION_FIELDS
        then Refused
      else if !EndsPiece(p, checks) then Stuck
      else FateFrom(pieces[1..], total * CountPiece(p), checks)
  }

  /** Of the nested braces in a piece, the first that does not come through decides. */
  ghost function FatePiece(p: Piece, checks: bool): Fate
    decreases p, 1
  {
    match p case Text(_) => Produced case Group(members) => FateMembers(members, checks)
  }

  ghost function FateMembers(members: seq<Member>, checks: bool): Fate
    decreases members, 0
  {
    if members == [] then Produced
    else if FateMember(members[0], checks) != Produced then FateMember(members[0], checks)
    else FateMembers(members[1..], checks)
  }

  ghost function FateMember(m: Member, checks: bool): Fate
    decreases m, 0
  {
    match m case Child(pieces) => FateFrom(pieces, 1, checks) case _ => Produced
  }

  /** What the guarded expansion must be, given its fate, the count announced for it and its full
      list of fields. */
  ghost predicate Agrees(e: Expansion<Lazy>, fate: Fate, count: nat, full: Option<seq<string>>) {
    match fate
    case Produced => e == Ready(Lazy(SatMin(count), full))
    case Refused => e == TooMuchData
    case Stuck => e == Diverges
  }

  lemma {:induction false} MemberAgrees(m: Member, checks: bool)
    ensures Agrees(ExpandMember(m, checks), FateMember(m, checks), CountMember(m), FullMember(m, checks))
    decreases m, 0
  {
    hide Numbers, Chars, Combine, FateFrom, Full, Fields;
    match m
    case NumberSequence(_, _, _) =>
    case CharSequence(first, last, increment) => QuotientBound(Abs(last as int - first as int), Step(increment));
    case Child(pieces) => CombineAgrees(pieces, checks);
  }

  lemma SatMinSum(x: nat, y: nat)
    ensures SatMin(SatMin(x) + SatMin(y)) == SatMin(x + y)
  {
  }

  lemma {:induction false} MembersAgree(members: seq<Member>, checks: bool)
    ensures Agrees(ExpandMembers(members, checks), FateMembers(members, checks),
                   CountMembers(members), FullMembers(members, checks))
    decreases members, 0
  {
    hide ExpandMember, FateMember, CountMember, FullMember;
    if members != [] {
      MemberAgrees(members[0], checks);
      MembersAgree(members[1..], checks);
      SatMinSum(CountMember(members[0]), CountMembers(members[1..]));
      hide SatMin;
    }
  }

  lemma {:induction false} PieceAgrees(p: Piece, checks: bool)
    ensures Agrees(ExpandPiece(p, checks), FatePiece(p, checks), CountPiece(p), FullPiece(p, checks))
    decreases p, 1
  {
    if p.Group? {
      MembersAgree(p.members, checks);
    }
  }

  lemma MulAtLeast(x: nat, y: nat)
    requires x >= 1 && y >= 1
    ensures x * y >= x && x * y >= y
  {
  }

  /** Saturation makes no difference to the two checks of the loop. */
  lemma ChecksAgree(total: nat, count: nat)
    ensures SatMin(count) > MAX_BRACE_EXPANSION_FIELDS <==> count > MAX_BRACE_EXPANSION_FIELDS
    ensures count <= MAX_BRACE_EXPANSION_FIELDS ==>
              && (SatMin(total * SatMin(count)) > MAX_BRACE_EXPANSION_FIELDS
                  <==> total * count > MAX_BRACE_EXPANSION_FIELDS)
              && (total * count <= MAX_BRACE_EXPANSION_FIELDS ==> SatMin(total * SatMin(count)) == total * count)
  {
    assert count <= MAX_BRACE_EXPANSION_FIELDS ==> SatMin(count) == count;
  }

  lemma {:induction false} CollectAgrees(pieces: seq<Piece>, total: nat, checks: bool)
    ensures match FateFrom(pieces, total, checks)
            case Produced =>
              && FullLists(pieces, checks).Some?
              && Collect(pieces, total, checks) == Ready(FullLists(pieces, checks).value)
            case Refused => Collect(pieces, total, checks) == TooMuchData
            case Stuck => Collect(pieces, total, checks) == Diverges
    decreases pieces, 0
  {
    hide ExpandPiece, FullPiece, CountPiece, FatePiece, EndsPiece, SatMin;
    if pieces != [] {
      PieceAgrees(pieces[0], checks);
      EndsPieceExactly(pieces[0], checks);
      var count := CountPiece(pieces[0]);
      ChecksAgree(total, count);
      CollectAgrees(pieces[1..], total * count, checks);
    }
  }

  /** Arithmetic alone decides what becomes of an expansion, nested braces included: it is refused,
      or stuck in a sequence that does not end, or it is the full one. */
  lemma {:induction false} CombineAgrees(pieces: seq<Piece>, checks: bool)
    ensures match FateFrom(pieces, 1, checks)
            case Produced =>
              && Full(pieces, checks).Some? && |Full(pieces, checks).value| == Fields(pieces)
              && Combine(pieces, checks) == Ready(Full(pieces, checks).value)
            case Refused => Combine(pieces, checks) == TooMuchData
            case Stuck => Combine(pieces, checks) == Diverges
    decreases pieces, 1
  {
    hide FateFrom, Fields, Collect, FullLists;
    CollectAgrees(pieces, 1, checks);
    if FateFrom(pieces, 1, checks) == Produced {
      FullFields(pieces, checks);
    }
  }

  // ----- Refused by size -----

  /** No group is empty, at any depth. */
  predicate Regular(pieces: seq<Piece>)
    decreases pieces, 1
  {
    pieces == [] || (RegularPiece(pieces[0]) && Regular(pieces[1..]))
  }

  predicate RegularPiece(p: Piece)
    decreases p, 1
  {
    match p
    case Text(_) => true
    case Group(members) => members != [] && RegularMembers(members)
  }

  predicate RegularMembers(members: seq<Member>)
    decreases members, 0
  {
    members == [] || ((members[0].Child? ==> Regular(members[0].pieces)) && RegularMembers(members[1..]))
  }

  lemma {:induction false} MemberPositive(m: Member)
    requires m.Child? ==> Regular(m.pieces)
    ensures CountMember(m) >= 1 && FieldsMember(m) >= 1
    decreases m, 0
  {
    if m.Child? {
      Positive(m.pieces);
    }
  }

  lemma {:induction false} MembersPositive(members: seq<Member>)
    requires RegularMembers(members)
    ensures CountMembers(members) >= |members| && FieldsMembers(members) >= |members|
    decreases members, 0
  {
    hide CountMember, FieldsMember;
    if members != [] {
      MemberPositive(members[0]);
      MembersPositive(members[1..]);
    }
  }

  lemma {:induction false} PiecePositive(p: Piece)
    requires RegularPiece(p)
    ensures CountPiece(p) >= 1 && FieldsPiece(p) >= 1
    decreases p, 1
  {
    if p.Group? {
      MembersPositive(p.members);
    }
  }

  lemma {:induction false} Positive(pieces: seq<Piece>)
    requires Regular(pieces)
    ensures Count(pieces) >= 1 && Fields(pieces) >= 1
    decreases pieces, 1
  {
    hide RegularPiece, CountPiece, FieldsPiece;
    if pieces != [] {
      PiecePositive(pieces[0]);
      Positive(pieces[1..]);
      MulAtLeast(CountPiece(pieces[0]), Count(pieces[1..]));
      MulAtLeast(FieldsPiece(pieces[0]), Fields(pieces[1..]));
    }
  }

  /** More fields are announced than the cap allows, by the expansion itself or by nested braces in
      it. */
  ghost predicate Oversized(pieces: seq<Piece>)
    decreases pieces, 2
  {
    Count(pieces) > MAX_BRACE_EXPANSION_FIELDS || OversizedInside(pieces)
  }

  ghost predicate OversizedInside(pieces: seq<Piece>)
    decreases pieces, 1
  {
    pieces != [] && ((pieces[0].Group? && OversizedMembers(pieces[0].members)) || OversizedInside(pieces[1..]))
  }

  ghost predicate OversizedMembers(members: seq<Member>)
    decreases members, 0
  {
    members != [] && ((members[0].Child? && Oversized(members[0].pieces)) || OversizedMembers(members[1..]))
  }

  function FateBySize(oversized: bool): Fate { if oversized then Refused else Produced }

  /** The nested braces among some members can all be generated; their own sequences need not
      end. */
  predicate NestedEnd(members: seq<Member>, checks: bool)
    decreases members
  {
    members == [] || ((members[0].Child? ==> Ends(members[0].pieces, checks)) && NestedEnd(members[1..], checks))
  }

  lemma {:induction false} AllEndNestedEnd(members: seq<Member>, checks: bool)
    requires EndsMembers(members, checks)
    ensures NestedEnd(members, checks)
  {
    if members != [] {
      AllEndNestedEnd(members[1..], checks);
    }
  }

  lemma {:induction false} MembersBySize(members: seq<Member>, checks: bool)
    requires RegularMembers(members) && NestedEnd(members, checks)
    ensures FateMembers(members, checks) == FateBySize(OversizedMembers(members))
    decreases members, 0
  {
    hide Ends, FateFrom, Regular;
    if members != [] {
      if members[0].Child? {
        FromBySize(members[0].pieces, 1, checks);
      }
      MembersBySize(members[1..], checks);
    }
  }

  lemma {:induction false} PieceBySize(p: Piece, checks: bool)
    requires RegularPiece(p) && EndsPiece(p, checks)
    ensures FatePiece(p, checks) == FateBySize(p.Group? && OversizedMembers(p.members))
    decreases p, 1
  {
    if p.Group? {
      AllEndNestedEnd(p.members, checks);
      MembersBySize(p.members, checks);
    }
  }

  lemma ProductBySize(total: nat, count: nat, rest: nat)
    requires total >= 1 && count >= 1 && rest >= 1
    ensures total * (count * rest) == (total * count) * rest
    ensures total * (count * rest) >= total * count >= count
  {
    MulAtLeast(total, count);
    MulAtLeast(total * count, rest);
    Arithmetic.MulAssociates(total, count, rest);
  }

  lemma {:induction false} FromBySize(pieces: seq<Piece>, total: nat, checks: bool)
    requires Regular(pieces) && Ends(pieces, checks) && 1 <= total <= MAX_BRACE_EXPANSION_FIELDS
    ensures FateFrom(pieces, total, checks)
         == FateBySize(total * Count(pieces) > MAX_BRACE_EXPANSION_FIELDS || OversizedInside(pieces))
    decreases pieces, 1
  {
    hide EndsPiece, RegularPiece, FatePiece, CountPiece, OversizedMembers;
    if pieces != [] {
      var p, rest := pieces[0], pieces[1..];
      PiecePositive(p);
      Positive(rest);
      PieceBySize(p, checks);
      ProductBySize(total, CountPiece(p), Count(rest));
      if total * CountPiece(p) <= MAX_BRACE_EXPANSION_FIELDS {
        FromBySize(rest, total * CountPiece(p), checks);
      }
    }
  }

  /** When every sequence ends, an expansion is refused exactly when it, or nested braces in it,
      announce more fields than the cap - the product of sums of quotients - and otherwise is the
      full one; how many fields that has is another product of sums, of what sequences yield. */
  lemma RefusedExactly(pieces: seq<Piece>, checks: bool)
    requires Regular(pieces) && Ends(pieces, checks)
    ensures Full(pieces, checks).Some? && |Full(pieces, checks).value| == Fields(pieces) >= 1
    ensures Combine(pieces, checks) == if Oversized(pieces) then TooMuchData else Ready(Full(pieces, checks).value)
  {
    hide FateFrom, Full, Combine, Count, Fields, OversizedInside;
    EndsExactly(pieces, checks);
    FromBySize(pieces, 1, checks);
    CombineAgrees(pieces, checks);
    FullFields(pieces, checks);
    Positive(pieces);
  }

  /** Every sequence, at any depth, yields as many fields as it announces. */
  predicate Counted(pieces: seq<Piece>)
    decreases pieces, 1
  {
    pieces == [] || ((pieces[0].Group? ==> CountedMembers(pieces[0].members)) && Counted(pieces[1..]))
  }

  predicate CountedMembers(members: seq<Member>)
    decreases members, 0
  {
    members == [] || (CountedMember(members[0]) && CountedMembers(members[1..]))
  }

  predicate CountedMember(m: Member)
    decreases m, 0
  {
    match m
    case NumberSequence(start, end, increment) => start <= end || StaysInRange(start, end, Step(increment))
    case CharSequence(first, last, increment) => CharCountRight(first, last, increment)
    case Child(pieces) => Counted(pieces)
  }

  lemma CountedSequence(m: Member)
    requires !m.Child? && CountedMember(m)
    ensures CountMember(m) == FieldsMember(m)
  {
    hide StaysInRange, SurrogateAhead, ClimbFields, DescentFields;
    if m.CharSequence? && m.first <= m.last {
      RankMonotone(m.first, m.last);
    } else if m.CharSequence? {
      DescendingCount(m.first, m.last, m.increment);
    }
  }

  lemma {:induction false} MembersCounted(members: seq<Member>)
    requires RegularMembers(members) && CountedMembers(members)
    ensures CountMembers(members) == FieldsMembers(members)
    ensures OversizedMembers(members) ==> FieldsMembers(members) > MAX_BRACE_EXPANSION_FIELDS
    decreases members, 0
  {
    hide Counted, Regular, Fields, Oversized;
    if members != [] {
      var m := members[0];
      MembersCounted(members[1..]);
      MembersPositive(members[1..]);
      MemberPositive(m);
      if m.Child? {
        CountsAgree(m.pieces);
      } else {
        CountedSequence(m);
      }
    }
  }

  /** Then the two products are the same, and nested braces over the cap put the whole over it. */
  lemma {:induction false} CountsAgree(pieces: seq<Piece>)
    requires Regular(pieces) && Counted(pieces)
    ensures Count(pieces) == Fields(pieces)
    ensures Oversized(pieces) <==> Fields(pieces) > MAX_BRACE_EXPANSION_FIELDS
    decreases pieces, 1
  {
    hide CountMembers, FieldsMembers, OversizedMembers, CountedMembers, RegularMembers;
    if pieces != [] {
      var p, rest := pieces[0], pieces[1..];
      if p.Group? {
        MembersCounted(p.members);
      }
      CountsAgree(rest);
      PiecePositive(p);
      Positive(rest);
      MulAtLeast(FieldsPiece(p), Fields(rest));
    }
  }

  /** In particular, when every sequence ends and announces what it yields, the expansion is refused
      exactly when it has more fields than the cap - however the excess is spread over pieces,
      members and nested groups. */
  lemma RefusedExactlyBySize(pieces: seq<Piece>, checks: bool)
    requires Regular(pieces) && Ends(pieces, checks) && Counted(pieces)
    ensures Full(pieces, checks).Some? && |Full(pieces, checks).value| == Fields(pieces) == Count(pieces)
    ensures Combine(pieces, checks)
         == if Fields(pieces) > MAX_BRACE_EXPANSION_FIELDS then TooMuchData else Ready(Full(pieces, checks).value)
  {
    hide Full, Combine, Count, Fields, Oversized;
    RefusedExactly(pieces, checks);
    CountsAgree(pieces);
  }

  lemma {:induction false} OversizedFrom(pieces: seq<Piece>, k: nat, total: nat, checks: bool)
    requires Regular(pieces) && k < |pieces| && 1 <= total <= MAX_BRACE_EXPANSION_FIELDS
    requires Ends(pieces[..k], checks) && (pieces[k].Group? ==> NestedEnd(pieces[k].members, checks))
    requires total * Count(pieces[..k + 1]) > MAX_BRACE_EXPANSION_FIELDS
    ensures FateFrom(pieces, total, checks) == Refused
    decreases k
  {
    hide EndsPiece, RegularPiece, FateMembers, CountPiece, NestedEnd, OversizedMembers;
    var p, rest := pieces[0], pieces[1..];
    if k == 0 {
      assert pieces[..1][0] == p && pieces[..1][1..] == [];
      FirstBySize(p, checks);
    } else {
      assert pieces[..k][0] == p && pieces[..k][1..] == rest[..k - 1] && pieces[k] == rest[k - 1];
      assert pieces[..k + 1][0] == p && pieces[..k + 1][1..] == rest[..k];
      RegularPrefix(rest, k);
      PiecePositive(p);
      Positive(rest[..k]);
      PieceBySize(p, checks);
      ProductBySize(total, CountPiece(p), Count(rest[..k]));
      if total * CountPiece(p) <= MAX_BRACE_EXPANSION_FIELDS && FatePiece(p, checks) == Produced {
        OversizedFrom(rest, k - 1, total * CountPiece(p), checks);
      }
    }
  }

  lemma FirstBySize(p: Piece, checks: bool)
    requires RegularPiece(p) && (p.Group? ==> NestedEnd(p.members, checks))
    ensures FatePiece(p, checks) != Stuck
  {
    if p.Group? {
      MembersBySize(p.members, checks);
    }
  }

  lemma {:induction false} RegularPrefix(pieces: seq<Piece>, n: nat)
    requires Regular(pieces) && n <= |pieces|
    ensures Regular(pieces[..n])
  {
    if n > 0 {
      assert pieces[..n][0] == pieces[0] && pieces[..n][1..] == pieces[1..][..n - 1];
      RegularPrefix(pieces[1..], n - 1);
    }
  }

  /** A running product of announced counts over the cap is refused before its last piece is
      generated: that piece, and whatever follows, may hold sequences that do not end. */
  lemma OversizedIsRefused(pieces: seq<Piece>, k: nat, checks: bool)
    requires Regular(pieces) && k < |pieces| && Ends(pieces[..k], checks)
    requires pieces[k].Group? ==> NestedEnd(pieces[k].members, checks)
    requires Count(pieces[..k + 1]) > MAX_BRACE_EXPANSION_FIELDS
    ensures Combine(pieces, checks) == TooMuchData
  {
    hide FateFrom, Combine, Count, Fields, Full;
    OversizedFrom(pieces, k, 1, checks);
    CombineAgrees(pieces, checks);
  }

  // ----- The cap is one on announced counts -----

  const ALPHABET := CharSequence('z', 'a', HUGE_STEP)

  /** n groups of all letters downwards, each announcing one field. */
  function Alphabets(n: nat): (pieces: seq<Piece>) {
    if n == 0 then [] else [Group([ALPHABET])] + Alphabets(n - 1)
  }

  lemma AlphabetCount(checks: bool)
    ensures EndsMember(ALPHABET, checks) && CountMember(ALPHABET) == 1 && FieldsMember(ALPHABET) == 26
  {
    hide Chars, CharCountRight, CharFields, SurrogateAhead;
    CountWrongForHugeStep(checks);
    CharCount('z', 'a', HUGE_STEP, checks);
    CharsEndExactly('z', 'a', HUGE_STEP, checks);
  }

  lemma OneMember(m: Member, checks: bool)
    ensures var p := Group([m]);
            && CountPiece(p) == CountMember(m) && FieldsPiece(p) == FieldsMember(m)
            && EndsPiece(p, checks) == EndsMember(m, checks)
            && (!m.Child? ==> RegularPiece(p) && !OversizedMembers(p.members))
  {
    hide CountMember, FieldsMember, EndsMember;
    var members := [m];
    assert members[0] == m && members[1..] == [];
    assert !OversizedMembers(members[1..]) && RegularMembers(members[1..]);
    assert CountMembers(members) == CountMember(m) && FieldsMembers(members) == FieldsMember(m);
    assert EndsMembers(members, checks) == EndsMember(m, checks);
  }

  lemma {:induction false} AlphabetsPass(n: nat, checks: bool)
    ensures var pieces := Alphabets(n);
            && Regular(pieces) && Ends(pieces, checks)
            && Count(pieces) == 1 && !OversizedInside(pieces) && Fields(pieces) == Pow(26, n)
  {
    hide CountPiece, FieldsPiece, EndsPiece, RegularPiece, OversizedMembers;
    if n > 0 {
      AlphabetCount(checks);
      OneMember(ALPHABET, checks);
      AlphabetsPass(n - 1, checks);
      assert Alphabets(n)[0] == Group([ALPHABET]) && Alphabets(n)[1..] == Alphabets(n - 1);
    }
  }

  /** Five of them are not refused, and are over ten times the cap. */
  lemma CapMissesHugeSteps(checks: bool)
    ensures var r := Combine(Alphabets(5), checks);
            r.Ready? && |r.value| == 11_881_376 > 10 * MAX_BRACE_EXPANSION_FIELDS
  {
    hide Alphabets, Regular, Ends, Count, Fields, OversizedInside, Combine, Full;
    AlphabetsPass(5, checks);
    RefusedExactly(Alphabets(5), checks);
    assert Pow(26, 5) == 11_881_376;
  }
}
