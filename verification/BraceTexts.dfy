/** Which texts a brace expansion yields, and in which order. */
module BraceTexts {
  import opened Wrappers
  import opened Numerals
  import opened BraceExpansion
  import opened Division
  import WrappingDescent

  // ----- Lists of one and of many -----

  lemma {:induction false} PairOne(heads: seq<string>)
    ensures Pair(heads, [""]) == heads
  {
    if heads != [] {
      PairOne(heads[1..]);
      assert heads[0] + "" == heads[0];
      assert Prefixed(heads[0], [""]) == [heads[0]];
    }
  }

  lemma ProductOne(lists: seq<seq<string>>)
    requires |lists| == 1
    ensures Product(lists) == lists[0]
  {
    PairOne(lists[0]);
  }

  /** What the expansion of one piece alone is. */
  lemma FullOne(p: Piece, checks: bool)
    ensures Full([p], checks) == FullPiece(p, checks)
  {
    assert [p][1..] == [];
    assert FullLists([], checks) == Some([]);
    if FullPiece(p, checks).Some? {
      var list := FullPiece(p, checks).value;
      ProductOne([list]);
      assert [p][0] == p && [list] + [] == [list];
      assert FullLists([p], checks) == Some([FullPiece(p, checks).value]);
    }
  }

  /** A text is itself. */
  lemma TextYields(text: string, checks: bool)
    ensures Full([Text(text)], checks) == Some([text])
  {
    FullOne(Text(text), checks);
  }

  /** Nested braces alone are their own expansion. */
  lemma ChildYields(pieces: seq<Piece>, checks: bool)
    ensures Full([Group([Child(pieces)])], checks) == Full(pieces, checks)
  {
    FullOne(Group([Child(pieces)]), checks);
    OneMemberFull(Child(pieces), checks);
  }

  lemma OneMemberFull(m: Member, checks: bool)
    ensures FullMembers([m], checks) == FullMember(m, checks)
  {
    hide FullMember;
    assert [m][1..] == [] && FullMembers([], checks) == Some([]);
    if FullMember(m, checks).Some? {
      assert FullMember(m, checks).value + [] == FullMember(m, checks).value;
    }
  }

  /** The fields of a group are those of its first member, then those of the others. */
  lemma GroupYields(m: Member, rest: seq<Member>, checks: bool)
    requires Full([Group([m] + rest)], checks).Some?
    ensures var (first, others) := (Full([Group([m])], checks), Full([Group(rest)], checks));
            first.Some? && others.Some? && Full([Group([m] + rest)], checks).value == first.value + others.value
  {
    hide FullMember, Full;
    FullOne(Group([m] + rest), checks);
    FullOne(Group([m]), checks);
    FullOne(Group(rest), checks);
    OneMemberFull(m, checks);
    assert ([m] + rest)[0] == m && ([m] + rest)[1..] == rest;
  }

  /** The fields of a piece and what follows it: every field of the piece joined to every field of
      the rest, the rest varying faster. */
  lemma PiecesYield(p: Piece, rest: seq<Piece>, checks: bool, i: nat, j: nat)
    requires Full([p] + rest, checks).Some?
    ensures Full([p], checks).Some? && Full(rest, checks).Some?
    ensures var (all, first, others) :=
              (Full([p] + rest, checks).value, Full([p], checks).value, Full(rest, checks).value);
            && |all| == |first| * |others|
            && (i < |first| && j < |others| ==>
                  0 <= i * |others| + j < |all| && all[i * |others| + j] == first[i] + others[j])
  {
    hide FullPiece, Pair, FullLists;
    FullOne(p, checks);
    PiecesUnfold(p, rest, checks);
    var first, others := FullPiece(p, checks).value, Full(rest, checks).value;
    PairLength(first, others);
    if i < |first| && j < |others| {
      PairAt(first, others, i, j);
    }
  }

  lemma PiecesUnfold(p: Piece, rest: seq<Piece>, checks: bool)
    requires Full([p] + rest, checks).Some?
    ensures FullPiece(p, checks).Some? && Full(rest, checks).Some?
    ensures Full([p] + rest, checks).value == Pair(FullPiece(p, checks).value, Full(rest, checks).value)
  {
    hide FullPiece, Pair;
    assert ([p] + rest)[0] == p && ([p] + rest)[1..] == rest;
    var lists := FullLists(rest, checks).value;
    assert ([FullPiece(p, checks).value] + lists)[1..] == lists;
  }

  /** What is produced at all is this expansion. */
  lemma CombineYields(pieces: seq<Piece>, checks: bool)
    requires Combine(pieces, checks).Ready?
    ensures Full(pieces, checks) == Some(Combine(pieces, checks).value)
  {
    hide FateFrom, Full, Combine, Fields;
    CombineAgrees(pieces, checks);
  }

  // ----- Sequences -----

  function NumberPiece(start: i64, end: i64, increment: i64): Piece { Group([NumberSequence(start, end, increment)]) }

  function CharPiece(first: char, last: char, increment: i64): Piece { Group([CharSequence(first, last, increment)]) }

  lemma NumberPieceFull(start: i64, end: i64, increment: i64, checks: bool)
    ensures Full([NumberPiece(start, end, increment)], checks)
         == match Numbers(start, end, Step(increment), checks)
            case Some(s) => Some(NumberStrings(s))
            case None => None
  {
    hide Numbers;
    FullOne(NumberPiece(start, end, increment), checks);
    OneMemberFull(NumberSequence(start, end, increment), checks);
  }

  /** The k-th number a sequence yields: upwards, or downwards as long as that is in range, and
      otherwise the 64-bit number congruent to it. */
  lemma NumberIs(start: i64, end: i64, step: nat, checks: bool, k: nat)
    requires 0 < step <= I64_MAX + 1
    requires Numbers(start, end, step, checks).Some? && k < |Numbers(start, end, step, checks).value|
    ensures var n := Numbers(start, end, step, checks).value[k];
            if start <= end then n == start + k * step
            else
              && I64_MIN <= n <= I64_MAX
              && (checks || StaysInRange(start, end, step) ==> n == start - k * step)
              && (n - (start - k * step)) % WrappingDescent.MODULUS == 0
  {
    hide WrappingDescent.Descend, WrappingDescent.StopsAfter, StaysInRange, Up, Down;
    if start <= end {
      UpAt(start, end, step, k);
    } else if checks {
      DownAt(start, end, step, k);
      InRange(start, end, step, k);
    } else {
      WrappingDescent.DescendIsExact(start, end, step);
      NumbersLength(start, end, step, checks);
      VisitedIs(start, end, step, k);
      if StaysInRange(start, end, step) {
        WholeQuotient(start, end, step);
        VisitedInRange(start, end, step, k);
      }
    }
  }

  lemma WholeQuotient(start: int, end: int, step: nat)
    requires step > 0 && start >= end
    ensures Steps(start, end, step) == (start - end) / step + 1
  {
  }

  lemma InRange(start: i64, end: i64, step: nat, k: nat)
    requires start - k * step >= end && start >= end
    ensures I64_MIN <= start - k * step <= I64_MAX
  {
    assert k * step >= 0;
  }

  lemma VisitedIs(start: i64, end: i64, step: nat, k: nat)
    ensures var n := WrappingDescent.Visited(start, step, k);
            (n - (start - k * step)) % WrappingDescent.MODULUS == 0
  {
  }

  /** The step as it is written, its sign aside; one if it is zero. */
  function Stride(increment: i64): (n: nat)
    ensures n > 0
  {
    if increment == 0 then 1 else if increment < 0 then 0 - increment else increment
  }

  /** The texts of a number sequence, in decimal: one for every stride from the start to the end,
      unless it wraps around. */
  lemma NumbersYield(start: i64, end: i64, increment: i64, checks: bool, k: nat)
    requires var r := Combine([NumberPiece(start, end, increment)], checks); r.Ready? && k < |r.value|
    ensures var (texts, step) := (Combine([NumberPiece(start, end, increment)], checks).value, Stride(increment));
            if start <= end then |texts| == (end - start) / step + 1 && texts[k] == IntToString(start + k * step)
            else
              && (checks || StaysInRange(start, end, step) ==>
                    |texts| == (start - end) / step + 1 && texts[k] == IntToString(start - k * step))
              && exists n: i64 ::
                   texts[k] == IntToString(n) && (n - (start - k * step)) % WrappingDescent.MODULUS == 0
  {
    hide Combine, Full, Numbers, StaysInRange, IntToString, Stride;
    CombineYields([NumberPiece(start, end, increment)], checks);
    NumberPieceFull(start, end, increment, checks);
    var s := Numbers(start, end, Step(increment), checks).value;
    TextOfNumber(s, k);
    NumberFacts(start, end, increment, checks, k);
    var n: int := s[k];
    assert start > end ==> I64_MIN <= n <= I64_MAX;
  }

  lemma TextOfNumber(s: seq<int>, k: nat)
    requires k < |s|
    ensures |NumberStrings(s)| == |s| && NumberStrings(s)[k] == IntToString(s[k])
  {
  }

  lemma NumberFacts(start: i64, end: i64, increment: i64, checks: bool, k: nat)
    requires var s := Numbers(start, end, Step(increment), checks); s.Some? && k < |s.value|
    ensures var (s, step) := (Numbers(start, end, Step(increment), checks).value, Stride(increment));
            if start <= end then |s| == (end - start) / step + 1 && s[k] == start + k * step
            else
              && I64_MIN <= s[k] <= I64_MAX
              && (checks || StaysInRange(start, end, step) ==>
                    |s| == (start - end) / step + 1 && s[k] == start - k * step)
              && (s[k] - (start - k * step)) % WrappingDescent.MODULUS == 0
  {
    hide Numbers, StaysInRange;
    assert Stride(increment) == Step(increment);
    hide Stride, Step;
    NumberIs(start, end, Step(increment), checks, k);
    NumbersLength(start, end, Step(increment), checks);
    NumbersEndExactly(start, end, Step(increment), checks);
  }

  lemma {:induction false} UpCharsAt(r: nat, end: nat, step: nat, k: nat)
    requires step > 0 && end < 0x10_F800 && k < |UpChars(r, end, step)|
    ensures r + k * step <= end && UpChars(r, end, step)[k] == FromRank(r + k * step)
    decreases k
  {
    if k > 0 {
      UpCharsAt(r + step, end, step, k - 1);
      assert r + k * step == (r + step) + (k - 1) * step;
    }
  }

  /** Where k steps from a code point lead: upwards past the surrogates; downwards by the step if it
      is shorter than the code points are many, and otherwise upwards by what the step lacks to
      2^32. */
  function CodeAt(first: int, up: bool, step: int, k: int): int {
    if up then (if first < 0xD800 <= first + k * step then first + k * step + 0x800 else first + k * step)
    else if step <= CHAR_END then first - k * step
    else first + k * (U32_MODULUS - step)
  }

  lemma {:induction false} DownCharsAt(c: char, end: char, step: nat, checks: bool, k: nat)
    requires 0 < step < U32_MODULUS
    requires DownChars(c, end, step, checks).Some? && k < |DownChars(c, end, step, checks).value|
    ensures DownChars(c, end, step, checks).value[k] as int == CodeAt(c as int, false, step, k)
    decreases k
  {
    if k > 0 {
      var next := Below(c, step);
      DownCharsAt(next as char, end, step, checks, k - 1);
      StepOnce(c as int, step, k);
    }
  }

  lemma StepOnce(c: int, step: int, k: int)
    ensures CodeAt(c, false, step, k)
         == CodeAt(if step <= CHAR_END then c - step else c + (U32_MODULUS - step), false, step, k - 1)
  {
    var d := U32_MODULUS - step;
    assert k * step == (k - 1) * step + step && k * d == (k - 1) * d + d;
  }

  lemma UpCode(first: char, last: char, step: nat, k: nat)
    requires step > 0 && first <= last && k < |UpChars(Rank(first), Rank(last), step)|
    ensures UpChars(Rank(first), Rank(last), step)[k] as int == CodeAt(first as int, true, step, k)
  {
    UpCharsAt(Rank(first), Rank(last), step, k);
    assert k * step >= 0;
  }

  lemma CharPieceFull(first: char, last: char, increment: i64, checks: bool)
    ensures Full([CharPiece(first, last, increment)], checks)
         == match Chars(first, last, Step(increment), checks)
            case Some(s) => Some(CharStrings(s))
            case None => None
  {
    hide Chars;
    FullOne(CharPiece(first, last, increment), checks);
    OneMemberFull(CharSequence(first, last, increment), checks);
  }

  /** The texts of a character sequence: one character each, by code point; a descending step
      counts modulo 2^32. */
  lemma CharsYield(first: char, last: char, increment: i64, checks: bool, k: nat)
    requires var r := Combine([CharPiece(first, last, increment)], checks); r.Ready? && k < |r.value|
    ensures var text := Combine([CharPiece(first, last, increment)], checks).value[k];
            var step := if first <= last then Stride(increment) else Stride(increment) % U32_MODULUS;
            |text| == 1 && text[0] as int == CodeAt(first as int, first <= last, step, k)
  {
    hide Combine, Full, UpChars, DownChars, CodeAt;
    CombineYields([CharPiece(first, last, increment)], checks);
    CharPieceFull(first, last, increment, checks);
    if first <= last {
      UpCode(first, last, Step(increment), k);
    } else {
      DownCharsAt(first, last, Step(increment) % U32_MODULUS, checks, k);
    }
  }
}
