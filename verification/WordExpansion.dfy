/** The data layer of word expansion: fields of splittable and unsplittable pieces, the
    substring operator, field splitting, double quotes, and the joining of adjacent pieces. */
module WordExpansion {
  import opened Wrappers
  import opened Numerals
  import opened Sequences
  import Utf8

  datatype Piece = Unsplittable(text: string) | Splittable(text: string)

  type Field = seq<Piece>

  datatype Expansion = Expansion(fields: seq<Field>, concatenate: bool, fromArray: bool, undefined: bool)

  function FieldText(f: Field): string {
    if f == [] then "" else f[0].text + FieldText(f[1..])
  }

  function Text(fields: seq<Field>): string {
    if fields == [] then "" else FieldText(fields[0]) + Text(fields[1..])
  }

  // ----- Slicing by characters -----

  /** a - b, or zero. */
  function Monus(a: nat, b: nat): nat { if a < b then 0 else a - b }

  /** The part of a piece between two positions, gone when it is empty. */
  function PieceSlice(p: Piece, from: nat, to: nat): Field
    requires from <= to
  {
    var a, b := Min(from, |p.text|), Min(to, |p.text|);
    if a == b then [] else [p.(text := p.text[a..b])]
  }

  function FieldSlice(f: Field, from: nat, to: nat): Field
    requires from <= to
  {
    if f == [] then []
    else PieceSlice(f[0], from, to) + FieldSlice(f[1..], Monus(from, |f[0].text|), Monus(to, |f[0].text|))
  }

  function NonEmpty(f: Field): seq<Field> { if f == [] then [] else [f] }

  function FieldsSlice(fields: seq<Field>, from: nat, to: nat): seq<Field>
    requires from <= to
  {
    if fields == [] then []
    else
      var n := |FieldText(fields[0])|;
      NonEmpty(FieldSlice(fields[0], from, to)) + FieldsSlice(fields[1..], Monus(from, n), Monus(to, n))
  }

  /** Array elements when the expansion came from an array, characters of the text otherwise. */
  function Subslice(e: Expansion, index: nat, end: nat): Expansion
    requires index <= end && (e.fromArray ==> index <= |e.fields|)
  {
    if e.fromArray then e.(fields := e.fields[index..Min(end, |e.fields|)])
    else e.(fields := FieldsSlice(e.fields, index, end))
  }

  lemma {:induction false} FieldSliceNothing(f: Field, at: nat)
    ensures FieldSlice(f, at, at) == []
  {
    if f != [] {
      FieldSliceNothing(f[1..], Monus(at, |f[0].text|));
    }
  }

  lemma {:induction false} FieldsSliceNothing(fields: seq<Field>, at: nat)
    ensures FieldsSlice(fields, at, at) == []
  {
    if fields != [] {
      FieldSliceNothing(fields[0], at);
      FieldsSliceNothing(fields[1..], Monus(at, |FieldText(fields[0])|));
    }
  }

  /** What the loop over a field's pieces maintains: the slice of the field and the window that
      remains for the next field. */
  ghost predicate SlicingField(f: Field, from: nat, to: nat, j: nat, pieces: Field, from': nat, to': nat)
    requires from <= to && from' <= to' && j <= |f|
  {
    && FieldSlice(f, from, to) == pieces + FieldSlice(f[j..], from', to')
    && Monus(from, |FieldText(f)|) == Monus(from', |FieldText(f[j..])|)
    && Monus(to, |FieldText(f)|) == Monus(to', |FieldText(f[j..])|)
  }

  lemma SlicingStarts(f: Field, from: nat, to: nat)
    requires from <= to
    ensures SlicingField(f, from, to, 0, [], from, to)
  {
    assert f[0..] == f;
    assert [] + FieldSlice(f, from, to) == FieldSlice(f, from, to);
  }

  lemma MonusTwice(a: nat, b: nat, c: nat)
    ensures Monus(Monus(a, b), c) == Monus(a, b + c)
  {
  }

  /** One turn of that loop. */
  lemma SlicePieceStep(f: Field, from: nat, to: nat, j: nat, pieces: Field, from': nat, to': nat)
    requires from <= to && from' <= to' && j < |f| && SlicingField(f, from, to, j, pieces, from', to')
    ensures SlicingField(f, from, to, j + 1, pieces + PieceSlice(f[j], from', to'),
                         Monus(from', |f[j].text|), Monus(to', |f[j].text|))
  {
    var n := |f[j].text|;
    var from1, to1 := Monus(from', n), Monus(to', n);
    var rest := f[j + 1..];
    SuffixStep(f, j);
    MonusTwice(from', n, |FieldText(rest)|);
    MonusTwice(to', n, |FieldText(rest)|);
    Reassociate(pieces, PieceSlice(f[j], from', to'), FieldSlice(rest, from1, to1));
  }

  /** The loop is done with its field, or has nothing left to copy from it. */
  lemma SlicingEnds(f: Field, from: nat, to: nat, j: nat, pieces: Field, from': nat, to': nat)
    requires from <= to && from' <= to' && j <= |f| && SlicingField(f, from, to, j, pieces, from', to')
    requires j == |f| || from' == to'
    ensures pieces == FieldSlice(f, from, to)
    ensures j == |f| ==> from' == Monus(from, |FieldText(f)|) && to' == Monus(to, |FieldText(f)|)
    ensures from' == to' ==> Monus(from, |FieldText(f)|) == Monus(to, |FieldText(f)|)
  {
    if from' == to' {
      FieldSliceNothing(f[j..], from');
    }
    assert pieces + [] == pieces;
  }

  /** The same for the loop over the fields. */
  ghost predicate SlicingFields(all: seq<Field>, from: nat, to: nat, i: nat, done: seq<Field>, from': nat, to': nat)
    requires from <= to && from' <= to' && i <= |all|
  {
    FieldsSlice(all, from, to) == done + FieldsSlice(all[i..], from', to')
  }

  lemma SliceFieldStep(all: seq<Field>, from: nat, to: nat, i: nat, done: seq<Field>, from': nat, to': nat,
                       from1: nat, to1: nat)
    requires from <= to && from' <= to' && i < |all| && SlicingFields(all, from, to, i, done, from', to')
    requires from1 <= to1
    requires var n := |FieldText(all[i])|;
             if from1 == to1 then Monus(from', n) == Monus(to', n)
             else from1 == Monus(from', n) && to1 == Monus(to', n)
    ensures SlicingFields(all, from, to, i + 1, done + NonEmpty(FieldSlice(all[i], from', to')), from1, to1)
  {
    var n := |FieldText(all[i])|;
    SuffixStep(all, i);
    if from1 == to1 {
      FieldsSliceNothing(all[i + 1..], from1);
      FieldsSliceNothing(all[i + 1..], Monus(from', n));
    }
    Reassociate(done, NonEmpty(FieldSlice(all[i], from', to')), FieldsSlice(all[i + 1..], from1, to1));
  }

  /** What the machine makes of a slice whose end lies before its start: the length underflows,
      which is a failure under overflow checks and otherwise wraps, so that the end is as good as
      a word further. */
  function CheckedSubslice(e: Expansion, index: nat, end: nat, checks: bool): Option<Expansion>
    requires index <= USIZE_MAX && (e.fromArray ==> index <= |e.fields|)
  {
    if index <= end then Some(Subslice(e, index, end))
    else if checks then None
    else Some(Subslice(e, index, end + USIZE_MAX + 1))
  }

  method PolymorphicSubslice(e: Expansion, index: nat, end: nat, checks: bool) returns (r: Option<Expansion>)
    requires index <= USIZE_MAX && (e.fromArray ==> index <= |e.fields|)
    ensures r == CheckedSubslice(e, index, end, checks)
  {
    hide FieldsSlice, FieldSlice, SlicingField, SlicingFields, FieldText;
    if end < index && checks {
      return None;
    }
    var len: nat := if end < index then end + USIZE_MAX + 1 - index else end - index;
    ghost var end' := index + len;
    if e.fromArray {
      var actualLen := Min(len, |e.fields| - index);
      return Some(Expansion(e.fields[index..index + actualLen], e.concatenate, e.fromArray, e.undefined));
    }
    var fields: seq<Field> := [];
    var distToSlice: nat, left: nat := index, len;
    SlicingFieldsStart(e.fields, index, end');
    for i := 0 to |e.fields|
      invariant SlicingFields(e.fields, index, end', i, fields, distToSlice, distToSlice + left)
    {
      ghost var from', to', before := distToSlice, distToSlice + left, fields;
      var pieces;
      pieces, distToSlice, left := SliceField(e.fields[i], distToSlice, left);
      SliceFieldStep(e.fields, index, end', i, before, from', to', distToSlice, distToSlice + left);
      if pieces != [] {
        fields := fields + [pieces];
      } else {
        assert fields + [] == fields;
      }
    }
    SlicingFieldsEnd(e.fields, index, end', fields, distToSlice, distToSlice + left);
    r := Some(Expansion(fields, e.concatenate, e.fromArray, e.undefined));
  }

  lemma SlicingFieldsStart(all: seq<Field>, from: nat, to: nat)
    requires from <= to
    ensures SlicingFields(all, from, to, 0, [], from, to)
  {
    assert all[0..] == all;
    assert [] + FieldsSlice(all, from, to) == FieldsSlice(all, from, to);
  }

  lemma SlicingFieldsEnd(all: seq<Field>, from: nat, to: nat, done: seq<Field>, from': nat, to': nat)
    requires from <= to && from' <= to' && SlicingFields(all, from, to, |all|, done, from', to')
    ensures done == FieldsSlice(all, from, to)
  {
    assert done + [] == done;
  }

  /** The inner loop: it stops as soon as nothing is left to copy, without moving on to the end
      of the field. */
  method SliceField(f: Field, dist0: nat, left0: nat) returns (pieces: Field, distToSlice: nat, left: nat)
    ensures pieces == FieldSlice(f, dist0, dist0 + left0)
    ensures var n := |FieldText(f)|;
            if left == 0 then Monus(dist0, n) == Monus(dist0 + left0, n)
            else distToSlice == Monus(dist0, n) && distToSlice + left == Monus(dist0 + left0, n)
  {
    hide FieldSlice, SlicingField, FieldText;
    pieces := [];
    distToSlice, left := dist0, left0;
    SlicingStarts(f, dist0, dist0 + left0);
    var j := 0;
    while j < |f| && left != 0
      invariant 0 <= j <= |f|
      invariant SlicingField(f, dist0, dist0 + left0, j, pieces, distToSlice, distToSlice + left)
    {
      var piece := f[j];
      var pieceCharCount := |piece.text|;
      SlicePieceStep(f, dist0, dist0 + left0, j, pieces, distToSlice, distToSlice + left);
      if distToSlice >= pieceCharCount {
        assert pieces + [] == pieces;
        distToSlice := distToSlice - pieceCharCount;
      } else {
        var desiredOffset := distToSlice;
        var lenFromThisPiece := Min(left, pieceCharCount - desiredOffset);
        pieces := pieces + [piece.(text := piece.text[desiredOffset..desiredOffset + lenFromThisPiece])];
        left := left - lenFromThisPiece;
        distToSlice := 0;
      }
      j := j + 1;
    }
    SlicingEnds(f, dist0, dist0 + left0, j, pieces, distToSlice, distToSlice + left);
  }

  /** A character and whether field splitting may still act on it. */
  datatype Atom = Atom(c: char, splittable: bool)

  function PieceAtoms(p: Piece): seq<Atom> {
    seq(|p.text|, i requires 0 <= i < |p.text| => Atom(p.text[i], p.Splittable?))
  }

  function FieldAtoms(f: Field): seq<Atom> {
    if f == [] then [] else PieceAtoms(f[0]) + FieldAtoms(f[1..])
  }

  function Atoms(fields: seq<Field>): seq<Atom> {
    if fields == [] then [] else FieldAtoms(fields[0]) + Atoms(fields[1..])
  }

  /** s[from..to], with positions beyond the end pulled back to it. */
  function Clip<T>(s: seq<T>, from: nat, to: nat): seq<T>
    requires from <= to
  {
    s[Min(from, |s|)..Min(to, |s|)]
  }

  lemma ClipConcat<T>(a: seq<T>, b: seq<T>, from: nat, to: nat)
    requires from <= to
    ensures Clip(a + b, from, to) == Clip(a, from, to) + Clip(b, Monus(from, |a|), Monus(to, |a|))
  {
    var f, t := Min(from, |a| + |b|), Min(to, |a| + |b|);
    SliceConcat(a, b, f, t);
  }

  lemma SliceConcat<T>(a: seq<T>, b: seq<T>, from: nat, to: nat)
    requires from <= to <= |a| + |b|
    ensures (a + b)[from..to] == a[Min(from, |a|)..Min(to, |a|)] + b[Monus(from, |a|)..Monus(to, |a|)]
  {
    if to <= |a| {
      TakeConcat(a, b, from, to);
    } else if from >= |a| {
      DropConcat(a, b, from, to);
    } else {
      StraddleConcat(a, b, from, to - |a|);
    }
  }

  lemma TakeConcat<T>(a: seq<T>, b: seq<T>, from: nat, to: nat)
    requires from <= to <= |a|
    ensures (a + b)[from..to] == a[from..to] + b[0..0]
  {
  }

  lemma DropConcat<T>(a: seq<T>, b: seq<T>, from: nat, to: nat)
    requires |a| <= from <= to <= |a| + |b|
    ensures (a + b)[from..to] == a[|a|..|a|] + b[from - |a|..to - |a|]
  {
  }

  lemma StraddleConcat<T>(a: seq<T>, b: seq<T>, from: nat, k: nat)
    requires from <= |a| && k <= |b|
    ensures (a + b)[from..|a| + k] == a[from..|a|] + b[0..k]
  {
  }

  lemma PieceSliceAtoms(p: Piece, from: nat, to: nat)
    requires from <= to
    ensures FieldAtoms(PieceSlice(p, from, to)) == Clip(PieceAtoms(p), from, to)
  {
    var slice := PieceSlice(p, from, to);
    if slice != [] {
      assert slice == [slice[0]] && slice[1..] == [];
      assert PieceAtoms(slice[0]) == Clip(PieceAtoms(p), from, to);
    }
  }

  lemma {:induction false} FieldAtomsConcat(f: Field, g: Field)
    ensures FieldAtoms(f + g) == FieldAtoms(f) + FieldAtoms(g)
  {
    if f == [] {
      assert f + g == g;
    } else {
      assert (f + g)[0] == f[0] && (f + g)[1..] == f[1..] + g;
      FieldAtomsConcat(f[1..], g);
      Reassociate(PieceAtoms(f[0]), FieldAtoms(f[1..]), FieldAtoms(g));
    }
  }

  lemma {:induction false} FieldSliceAtoms(f: Field, from: nat, to: nat)
    requires from <= to
    ensures FieldAtoms(FieldSlice(f, from, to)) == Clip(FieldAtoms(f), from, to)
  {
    if f != [] {
      var n := |f[0].text|;
      PieceSliceAtoms(f[0], from, to);
      FieldSliceAtoms(f[1..], Monus(from, n), Monus(to, n));
      FieldAtomsConcat(PieceSlice(f[0], from, to), FieldSlice(f[1..], Monus(from, n), Monus(to, n)));
      ClipConcat(PieceAtoms(f[0]), FieldAtoms(f[1..]), from, to);
    }
  }

  lemma {:induction false} FieldAtomsText(f: Field)
    ensures |FieldAtoms(f)| == |FieldText(f)|
    ensures forall i :: 0 <= i < |FieldText(f)| ==> FieldAtoms(f)[i].c == FieldText(f)[i]
  {
    if f != [] {
      FieldAtomsText(f[1..]);
    }
  }

  lemma {:induction false} AtomsText(fields: seq<Field>)
    ensures |Atoms(fields)| == |Text(fields)|
    ensures forall i :: 0 <= i < |Text(fields)| ==> Atoms(fields)[i].c == Text(fields)[i]
  {
    if fields != [] {
      FieldAtomsText(fields[0]);
      AtomsText(fields[1..]);
    }
  }

  lemma AtomsNonEmpty(f: Field, rest: seq<Field>)
    ensures Atoms(NonEmpty(f) + rest) == FieldAtoms(f) + Atoms(rest)
  {
    if f == [] {
      assert NonEmpty(f) + rest == rest;
      assert FieldAtoms(f) + Atoms(rest) == Atoms(rest);
    } else {
      assert (NonEmpty(f) + rest)[0] == f && (NonEmpty(f) + rest)[1..] == rest;
    }
  }

  /** The characters of a slice are the characters asked for, each as splittable as it was. */
  lemma {:induction false} FieldsSliceAtoms(fields: seq<Field>, from: nat, to: nat)
    requires from <= to
    ensures Atoms(FieldsSlice(fields, from, to)) == Clip(Atoms(fields), from, to)
  {
    if fields != [] {
      var n := |FieldText(fields[0])|;
      FieldAtomsText(fields[0]);
      FieldSliceAtoms(fields[0], from, to);
      FieldsSliceAtoms(fields[1..], Monus(from, n), Monus(to, n));
      AtomsNonEmpty(FieldSlice(fields[0], from, to), FieldsSlice(fields[1..], Monus(from, n), Monus(to, n)));
      ClipConcat(FieldAtoms(fields[0]), Atoms(fields[1..]), from, to);
    }
  }

  lemma FieldsSliceText(fields: seq<Field>, from: nat, to: nat)
    requires from <= to
    ensures Text(FieldsSlice(fields, from, to)) == Clip(Text(fields), from, to)
  {
    hide FieldsSlice, Text, Atoms;
    FieldsSliceAtoms(fields, from, to);
    AtomsText(fields);
    AtomsText(FieldsSlice(fields, from, to));
  }

  // ----- The substring operator -----

  /** Bytes, not characters, when the expansion is text. */
  function PolymorphicLen(e: Expansion): nat {
    if e.fromArray then |e.fields| else |Utf8.Encode(Text(e.fields))|
  }

  /** Where ${name:offset:length} starts and ends in something of the given length. */
  function Bounds(len: nat, offset: i64, length: Option<i64>): (int, int) {
    var o := if offset >= 0 then offset as int
             else if offset + len >= 0 then offset + len
             else len;
    var start := if o < len then o else len;
    match length
    case None => (start, len)
    case Some(l) =>
      var taken := if l < 0 then l + len else l as int;
      (start, start + if taken < len - start then taken else len - start)
  }

  /** A signed offset seen as an unsigned machine word. */
  function AsUsize(n: int): nat
    requires -(USIZE_MAX + 1) <= n <= USIZE_MAX
  {
    if n < 0 then n + USIZE_MAX + 1 else n
  }

  /** The fields that are sliced: all positional parameters are preceded by the shell's name. */
  function Sliced(e: Expansion, shellName: Option<string>): Expansion {
    match shellName
    case None => e
    case Some(name) => e.(fields := [[Splittable(name)]] + e.fields)
  }

  /** ${name:offset:length}; none when the end lies before the start and overflow is checked. */
  function Substring(e: Expansion, shellName: Option<string>, offset: i64, length: Option<i64>, checks: bool)
    : Option<Expansion>
    requires PolymorphicLen(Sliced(e, shellName)) <= I64_MAX
  {
    var whole := Sliced(e, shellName);
    var (start, end) := Bounds(PolymorphicLen(whole), offset, length);
    CheckedSubslice(whole, start, AsUsize(end), checks)
  }

  lemma ArrayLen(e: Expansion)
    ensures e.fromArray ==> PolymorphicLen(e) == |e.fields|
  {
  }

  method ExpandSubstring(e: Expansion, shellName: Option<string>, offset: i64, length: Option<i64>, checks: bool)
    returns (r: Option<Expansion>)
    requires PolymorphicLen(Sliced(e, shellName)) <= I64_MAX
    ensures r == Substring(e, shellName, offset, length, checks)
  {
    hide PolymorphicLen, CheckedSubslice;
    var expanded := e;
    if shellName.Some? {
      expanded := expanded.(fields := [[Splittable(shellName.value)]] + expanded.fields);
    }
    var start, end := SubstringBounds(PolymorphicLen(expanded), offset, length);
    ArrayLen(expanded);
    r := PolymorphicSubslice(expanded, start, AsUsize(end), checks);
  }

  method SubstringBounds(len: nat, offset: i64, length: Option<i64>) returns (start: nat, end: int)
    requires len <= I64_MAX
    ensures (start, end) == Bounds(len, offset, length)
    ensures start <= len && I64_MIN <= end <= I64_MAX
  {
    var expandedOffset: int := offset;
    if expandedOffset < 0 {
      expandedOffset := expandedOffset + len;
      if expandedOffset < 0 {
        expandedOffset := len;
      }
    }
    start := if expandedOffset < len then expandedOffset else len;
    if length.None? {
      return start, len;
    }
    var expandedLength: int := length.value;
    if expandedLength < 0 {
      expandedLength := expandedLength + len;
    }
    end := start + if expandedLength < len - start then expandedLength else len - start;
  }

  /** The bounds are in order and in range exactly when the length is absent, or no more negative
      than the whole is long. */
  lemma BoundsInRange(len: nat, offset: i64, length: Option<i64>)
    requires len <= I64_MAX
    ensures var (start, end) := Bounds(len, offset, length);
            0 <= start <= len && (start <= end <= len <==> (length.None? || length.value + len >= 0))
  {
  }

  /** On text, within that condition, the slice is the clipped range of the text's characters. */
  lemma SubstringOfText(e: Expansion, offset: i64, length: Option<i64>, checks: bool)
    requires !e.fromArray && PolymorphicLen(e) <= I64_MAX
    requires length.None? || length.value + PolymorphicLen(e) >= 0
    ensures var (start, end) := Bounds(PolymorphicLen(e), offset, length);
            var r := Substring(e, None, offset, length, checks);
            && 0 <= start <= end <= PolymorphicLen(e)
            && r.Some?
            && Atoms(r.value.fields) == Clip(Atoms(e.fields), start, end)
            && Text(r.value.fields) == Clip(Text(e.fields), start, end)
  {
    hide FieldsSlice, Text, Atoms, PolymorphicLen;
    BoundsInRange(PolymorphicLen(e), offset, length);
    var (start, end) := Bounds(PolymorphicLen(e), offset, length);
    FieldsSliceAtoms(e.fields, start, end);
    FieldsSliceText(e.fields, start, end);
  }

  /** On single-byte text nothing is clipped. */
  lemma SubstringOfAscii(e: Expansion, offset: i64, length: Option<i64>, checks: bool)
    requires !e.fromArray && PolymorphicLen(e) <= I64_MAX
    requires forall i :: 0 <= i < |Text(e.fields)| ==> Text(e.fields)[i] as int < 0x80
    requires length.None? || length.value + PolymorphicLen(e) >= 0
    ensures var (start, end) := Bounds(|Text(e.fields)|, offset, length);
            var r := Substring(e, None, offset, length, checks);
            && 0 <= start <= end <= |Text(e.fields)|
            && r.Some? && Text(r.value.fields) == Text(e.fields)[start..end]
  {
    Utf8.EncodeLength(Text(e.fields));
    SubstringOfText(e, offset, length, checks);
  }

  lemma SubstringOfArray(e: Expansion, offset: i64, length: Option<i64>, checks: bool)
    requires e.fromArray && |e.fields| <= I64_MAX
    requires length.None? || length.value + |e.fields| >= 0
    ensures var (start, end) := Bounds(|e.fields|, offset, length);
            0 <= start <= end <= |e.fields| && Substring(e, None, offset, length, checks)
              == Some(e.(fields := e.fields[start..end]))
  {
    BoundsInRange(|e.fields|, offset, length);
  }

  /** In elements: an offset counts from the front, or from the back if it is negative; one beyond
      either end selects nothing. A length counts from there, or is taken off the whole if it is
      negative; what is not there is left out. All positional parameters have the shell's name
      before them, as number zero. */
  lemma SubstringInElements(e: Expansion, shellName: Option<string>, offset: i64, length: Option<i64>, checks: bool)
      returns (start: nat, count: nat)
    requires e.fromArray && |e.fields| < I64_MAX
    requires var n := |e.fields| + if shellName.Some? then 1 else 0; length.None? || length.value + n >= 0
    ensures var all := (if shellName.Some? then [[Splittable(shellName.value)]] else []) + e.fields;
            && start + count <= |all|
            && Substring(e, shellName, offset, length, checks) == Some(e.(fields := all[start..start + count]))
            && (if 0 <= offset <= |all| then start == offset
                else if offset < 0 && offset + |all| >= 0 then start == offset + |all| else count == 0)
            && match length
               case None => start + count == |all|
               case Some(l) =>
                 var wanted := if l >= 0 then l as int else l + |all|;
                 count == wanted || (count < wanted && start + count == |all|)
  {
    hide CheckedSubslice, Text;
    var all := (if shellName.Some? then [[Splittable(shellName.value)]] else []) + e.fields;
    var whole := e.(fields := all);
    SlicedIs(e, shellName);
    SubstringOfArray(whole, offset, length, checks);
    var (from, to) := Bounds(|all|, offset, length);
    start, count := from, to - from;
  }

  lemma SlicedIs(e: Expansion, shellName: Option<string>)
    ensures Sliced(e, shellName)
         == e.(fields := (if shellName.Some? then [[Splittable(shellName.value)]] else []) + e.fields)
  {
    assert [] + e.fields == e.fields;
  }

  lemma BoundsClip(n: nat, len: nat, offset: i64, length: Option<i64>)
    requires n <= len && offset >= 0 && (length.Some? ==> length.value >= 0)
    ensures var (start, end), (start', end') := Bounds(len, offset, length), Bounds(n, offset, length);
            0 <= start <= end && 0 <= start' == Min(start, n) && start' <= end' == Min(end, n)
  {
  }

  /** With an offset and a length that are not negative the byte count does no harm: the slice
      is the one that counting characters gives, whatever the text. */
  lemma NonNegativeCountsCharacters(e: Expansion, offset: i64, length: Option<i64>, checks: bool)
    requires !e.fromArray && PolymorphicLen(e) <= I64_MAX
    requires offset >= 0 && (length.Some? ==> length.value >= 0)
    ensures var (start, end) := Bounds(|Text(e.fields)|, offset, length);
            var r := Substring(e, None, offset, length, checks);
            && 0 <= start <= end <= |Text(e.fields)|
            && r.Some? && Text(r.value.fields) == Text(e.fields)[start..end]
  {
    Utf8.EncodeLength(Text(e.fields));
    hide Text;
    BoundsClip(|Text(e.fields)|, PolymorphicLen(e), offset, length);
    SubstringOfText(e, offset, length, checks);
  }

  /** A negative offset counts bytes back from the end but is spent on characters: the result is
      the suffix of that many characters exactly when the text is single-byte, or both ways of
      counting leave nothing. */
  lemma NegativeOffsetExactly(e: Expansion, offset: i64, checks: bool)
    requires !e.fromArray && PolymorphicLen(e) <= I64_MAX && offset < 0
    ensures var text := Text(e.fields);
            var (start, end) := Bounds(|text|, offset, None);
            var r := Substring(e, None, offset, None, checks);
            var excess := PolymorphicLen(e) - |text|;
            && r.Some?
            && (Text(r.value.fields) == text[start..end]
                <==> excess == 0 || (|text| + offset < 0 && (offset + excess >= 0 || PolymorphicLen(e) + offset < 0)))
  {
    var text := Text(e.fields);
    Utf8.EncodeLength(text);
    SubstringOfText(e, offset, None, checks);
  }

  /** Two half-open ranges of positions hold the same ones. */
  predicate SameRange(from: int, to: int, from': int, to': int) {
    (from == from' && to == to') || (from >= to && from' >= to')
  }

  /** When counting a text of n characters in bytes, of which it has `len`, does no harm: when
      the two numbers agree; from an offset not below zero, unless a negative length reaches back
      before it; from a negative offset, when nothing is asked for, when it reaches back beyond
      the bytes, or when it lands behind the characters by bytes and nothing is left by
      characters either. */
  predicate ByteCountHarmless(n: nat, len: nat, offset: int, length: Option<int>) {
    || len == n
    || (offset >= 0 && (length.None? || length.value >= 0 || offset + length.value >= 0))
    || (offset < 0
        && (|| offset + len < 0
            || length == Some(0)
            || (offset + len - n >= 0 && (offset + n < 0 || (length.Some? && length.value + n == 0)))))
  }

  /** For all offsets and all lengths that reach back no further than the text: the byte bounds,
      clipped to the text, are the range of positions that character bounds are, exactly then. */
  lemma ByteBoundsExactly(n: nat, len: nat, offset: i64, length: Option<i64>)
    requires n <= len <= I64_MAX && (length.Some? ==> length.value + n >= 0)
    ensures var ((start, end), (start', end')) := (Bounds(len, offset, length), Bounds(n, offset, length));
            && 0 <= start <= end <= len && 0 <= start' <= end' <= n
            && (SameRange(Min(start, n), Min(end, n), start', end')
                <==> ByteCountHarmless(n, len, offset, length))
  {
  }

  /** The same for what the substring operator makes of a text. */
  lemma CountsCharactersExactly(e: Expansion, offset: i64, length: Option<i64>, checks: bool)
    requires !e.fromArray && PolymorphicLen(e) <= I64_MAX
    requires length.Some? ==> length.value + |Text(e.fields)| >= 0
    ensures var (text, len) := (Text(e.fields), PolymorphicLen(e));
            var ((start, end), (start', end')) := (Bounds(len, offset, length), Bounds(|text|, offset, length));
            var r := Substring(e, None, offset, length, checks);
            && |text| <= len && 0 <= start <= end <= len && 0 <= start' <= end' <= |text|
            && r.Some? && Text(r.value.fields) == text[Min(start, |text|)..Min(end, |text|)]
            && (SameRange(Min(start, |text|), Min(end, |text|), start', end')
                <==> ByteCountHarmless(|text|, len, offset, length))
            && (ByteCountHarmless(|text|, len, offset, length) ==> Text(r.value.fields) == text[start'..end'])
  {
    var text := Text(e.fields);
    Utf8.EncodeLength(text);
    hide Text, Bounds, ByteCountHarmless, Substring;
    ByteBoundsExactly(|text|, PolymorphicLen(e), offset, length);
    SubstringOfText(e, offset, length, checks);
  }

  lemma TextOfOne(s: string)
    ensures Text([[Splittable(s)]]) == s
  {
    var f: Field := [Splittable(s)];
    var fields: seq<Field> := [f];
    assert f[1..] == [] && fields[1..] == [];
    assert FieldText(f) == s + "" == s;
    assert Text(fields) == FieldText(f) + "";
  }

  const TWO_BYTES_THEN_TWO := ['\U{E9}', 'a', 'b']

  /** A text that a length of -1 does not shorten, because its bytes outnumber its characters. */
  lemma NotShortened(concatenate: bool, checks: bool)
    ensures var e := Expansion([[Splittable(TWO_BYTES_THEN_TWO)]], concatenate, false, false);
            && PolymorphicLen(e) == 4
            && Substring(e, None, 0, Some(-1), checks).Some?
            && Text(Substring(e, None, 0, Some(-1), checks).value.fields) == TWO_BYTES_THEN_TWO
  {
    var s := TWO_BYTES_THEN_TWO;
    var e := Expansion([[Splittable(s)]], concatenate, false, false);
    TextOfOne(s);
    assert s[1..] == ['a', 'b'] && s[1..][1..] == ['b'] && s[1..][1..][1..] == "";
    assert |Utf8.EncodeChar('\U{E9}')| == 2;
    assert |Utf8.Encode(s)| == 4;
    SubstringOfText(e, 0, Some(-1), checks);
    assert s[0..3] == s;
  }

  /** Of three characters from the second on, all but the last: the end is the third, not the
      second. */
  lemma LengthFromTheWhole()
    ensures Bounds(3, 1, Some(-1)) == (1, 3)
  {
  }

  /** A negative length is not a position counted from the end: it is the whole length less that
      much, taken from the offset, so the two agree only when that is the beginning. */
  lemma NegativeLengthIsFromTheWhole(len: nat, offset: i64, length: i64)
    requires len <= I64_MAX && len + length >= 0 && length < 0
    ensures Bounds(len, offset, Some(length)).1 == len + length <==> offset == 0 || offset + len == 0
  {
  }

  /** A length more negative than the whole is long takes everything from the start on: the end
      wraps around in the cast, or else the length of the slice wraps around unless that is
      checked. */
  lemma TooNegativeTakesAll(e: Expansion, offset: i64, length: i64, checks: bool)
    requires PolymorphicLen(e) <= I64_MAX && length + PolymorphicLen(e) < 0
    ensures var (start, end) := Bounds(PolymorphicLen(e), offset, Some(length));
            Substring(e, None, offset, Some(length), checks)
            == if checks && end >= 0 then None else Substring(e, None, offset, None, checks)
  {
    hide FieldsSlice, Text;
    var len := PolymorphicLen(e);
    var (start, end) := Bounds(len, offset, Some(length));
    var end' := end + USIZE_MAX + 1;
    assert end < start && end' >= len;
    if !e.fromArray {
      Utf8.EncodeLength(Text(e.fields));
      SliceBeyond(e.fields, start, len, end');
    }
  }

  /** Positions beyond the end of the text all mean its end. */
  lemma {:induction false} SliceBeyond(fields: seq<Field>, from: nat, to: nat, to': nat)
    requires from <= to && from <= to' && |Text(fields)| <= to && |Text(fields)| <= to'
    ensures FieldsSlice(fields, from, to) == FieldsSlice(fields, from, to')
  {
    if fields != [] {
      var n := |FieldText(fields[0])|;
      FieldSliceBeyond(fields[0], from, to, to');
      SliceBeyond(fields[1..], Monus(from, n), Monus(to, n), Monus(to', n));
    }
  }

  lemma {:induction false} FieldSliceBeyond(f: Field, from: nat, to: nat, to': nat)
    requires from <= to && from <= to' && |FieldText(f)| <= to && |FieldText(f)| <= to'
    ensures FieldSlice(f, from, to) == FieldSlice(f, from, to')
  {
    if f != [] {
      var n := |f[0].text|;
      FieldSliceBeyond(f[1..], Monus(from, n), Monus(to, n), Monus(to', n));
    }
  }

  // ----- Field splitting -----

  /** What splitting works on: a whole unsplittable piece, or one character of a splittable one. */
  datatype Item = Quoted(text: string) | Plain(c: char)

  function PieceItems(p: Piece): seq<Item> {
    match p
    case Unsplittable(text) => [Quoted(text)]
    case Splittable(text) => seq(|text|, i requires 0 <= i < |text| => Plain(text[i]))
  }

  function Items(f: Field): seq<Item> {
    if f == [] then [] else PieceItems(f[0]) + Items(f[1..])
  }

  predicate IsSeparator(item: Item, ifs: string) {
    item.Plain? && item.c in ifs
  }

  /** How many items come before the first separator. */
  function RunLength(items: seq<Item>, ifs: string): (n: nat)
    ensures n <= |items|
    ensures forall i :: 0 <= i < n ==> !IsSeparator(items[i], ifs)
    ensures n < |items| ==> IsSeparator(items[n], ifs)
  {
    if items == [] || IsSeparator(items[0], ifs) then 0 else 1 + RunLength(items[1..], ifs)
  }

  /** The maximal non-empty runs between separators. */
  function Words(items: seq<Item>, ifs: string): seq<seq<Item>> {
    if items == [] then []
    else if IsSeparator(items[0], ifs) then Words(items[1..], ifs)
    else
      var n := RunLength(items, ifs);
      [items[..n]] + Words(items[n..], ifs)
  }

  /** Adds an item to a field: a character joins a splittable last piece, or starts one. */
  function Extend(f: Field, item: Item): (r: Field)
    ensures r != []
  {
    match item
    case Quoted(text) => f + [Unsplittable(text)]
    case Plain(c) =>
      if f != [] && f[|f| - 1].Splittable?
      then f[..|f| - 1] + [Splittable(f[|f| - 1].text + [c])]
      else f + [Splittable([c])]
  }

  /** The field with given items in which no two splittable pieces are adjacent. */
  function Regroup(items: seq<Item>): Field {
    if items == [] then [] else Extend(Regroup(items[..|items| - 1]), items[|items| - 1])
  }

  /** Splitting goes on with a field under construction. */
  function SplitOn(current: Field, items: seq<Item>, ifs: string): seq<Field>
    decreases |items|
  {
    if items == [] then NonEmpty(current)
    else if IsSeparator(items[0], ifs) then NonEmpty(current) + SplitOn([], items[1..], ifs)
    else SplitOn(Extend(current, items[0]), items[1..], ifs)
  }

  /** Every field is split on its own. */
  function SplitFields(fields: seq<Field>, ifs: string): seq<Field> {
    if fields == [] then [] else SplitOn([], Items(fields[0]), ifs) + SplitFields(fields[1..], ifs)
  }

  lemma SplitOnStep(done: seq<Field>, current: Field, item: Item, rest: seq<Item>, ifs: string)
    ensures var r := if IsSeparator(item, ifs) then (done + NonEmpty(current), []) else (done, Extend(current, item));
            done + SplitOn(current, [item] + rest, ifs) == r.0 + SplitOn(r.1, rest, ifs)
  {
    assert ([item] + rest)[0] == item && ([item] + rest)[1..] == rest;
    if IsSeparator(item, ifs) {
      Reassociate(done, NonEmpty(current), SplitOn([], rest, ifs));
    }
  }

  lemma ItemsOfPlain(text: string, k: nat, rest: seq<Item>)
    requires k < |text|
    ensures PieceItems(Splittable(text[k..])) + rest
            == [Plain(text[k])] + (PieceItems(Splittable(text[k + 1..])) + rest)
  {
  }

  lemma NoItems(rest: seq<Item>)
    ensures PieceItems(Splittable("")) + rest == rest
  {
  }

  lemma ItemsFrom(f: Field, j: nat)
    requires j < |f|
    ensures Items(f[j..]) == PieceItems(f[j]) + Items(f[j + 1..])
  {
    SuffixStep(f, j);
  }

  method DoSplitFields(expansion: Expansion, ifs: string) returns (fields: seq<Field>)
    ensures fields == SplitFields(expansion.fields, ifs)
  {
    hide SplitOn, Items;
    fields := [];
    var all := expansion.fields;
    assert all[0..] == all;
    for i := 0 to |all|
      invariant SplitFields(all, ifs) == fields + SplitFields(all[i..], ifs)
    {
      SuffixStep(all, i);
      ghost var before := fields;
      fields := SplitOneField(all[i], ifs, fields);
      Reassociate(before, SplitOn([], Items(all[i]), ifs), SplitFields(all[i + 1..], ifs));
    }
    assert fields + [] == fields;
  }

  /** The loop over the pieces of one field; the field under construction ends with it. */
  method SplitOneField(existing: Field, ifs: string, fields0: seq<Field>) returns (fields: seq<Field>)
    ensures fields == fields0 + SplitOn([], Items(existing), ifs)
  {
    hide SplitOn, Items, Extend, PieceItems;
    fields := fields0;
    var currentField: Field := [];
    assert existing[0..] == existing;
    for j := 0 to |existing|
      invariant fields0 + SplitOn([], Items(existing), ifs) == fields + SplitOn(currentField, Items(existing[j..]), ifs)
    {
      ItemsFrom(existing, j);
      fields, currentField := SplitPiece(existing[j], ifs, fields, currentField, Items(existing[j + 1..]));
    }
    SplitOnEnd(fields, currentField, existing, ifs);
    if currentField != [] {
      fields := fields + [currentField];
    } else {
      assert fields + [] == fields;
    }
  }

  lemma SplitOnEnd(done: seq<Field>, current: Field, existing: Field, ifs: string)
    ensures done + SplitOn(current, Items(existing[|existing|..]), ifs) == done + NonEmpty(current)
  {
    assert existing[|existing|..] == [];
  }

  /** One piece; the items after it are only spoken of. */
  method SplitPiece(piece: Piece, ifs: string, fields0: seq<Field>, current0: Field, ghost rest: seq<Item>)
    returns (fields: seq<Field>, current: Field)
    ensures fields0 + SplitOn(current0, PieceItems(piece) + rest, ifs) == fields + SplitOn(current, rest, ifs)
  {
    hide SplitOn;
    fields, current := fields0, current0;
    match piece
    case Unsplittable(text) =>
      SplitOnStep(fields, current, Quoted(text), rest, ifs);
      current := current + [piece];
    case Splittable(text) =>
      hide PieceItems;
      assert text[0..] == text;
      for k := 0 to |text|
        invariant fields0 + SplitOn(current0, PieceItems(piece) + rest, ifs)
               == fields + SplitOn(current, PieceItems(Splittable(text[k..])) + rest, ifs)
      {
        var c := text[k];
        ItemsOfPlain(text, k, rest);
        SplitOnStep(fields, current, Plain(c), PieceItems(Splittable(text[k + 1..])) + rest, ifs);
        if c in ifs {
          if current != [] {
            fields := fields + [current];
          } else {
            assert fields + [] == fields;
          }
          current := [];
        } else {
          current := Extend(current, Plain(c));
        }
      }
      assert text[|text|..] == "";
      NoItems(rest);
  }

  // ----- What splitting is -----

  lemma ItemsUnfold(f: Field, g: Field)
    requires f != []
    ensures Items(f + g) == PieceItems(f[0]) + Items(f[1..] + g)
    ensures Items(f) == PieceItems(f[0]) + Items(f[1..])
  {
    hide PieceItems;
    assert (f + g)[0] == f[0] && (f + g)[1..] == f[1..] + g;
  }

  lemma {:induction false} ItemsConcat(f: Field, g: Field)
    ensures Items(f + g) == Items(f) + Items(g)
  {
    hide PieceItems, Items;
    if f == [] {
      assert f + g == g;
      NoPieces();
    } else {
      ItemsUnfold(f, g);
      ItemsConcat(f[1..], g);
      Reassociate(PieceItems(f[0]), Items(f[1..]), Items(g));
    }
  }

  lemma NoPieces()
    ensures Items([]) == []
  {
  }

  lemma ItemsSingle(p: Piece)
    ensures Items([p]) == PieceItems(p)
  {
    assert [p][1..] == [];
    assert PieceItems(p) + [] == PieceItems(p);
  }

  lemma ItemsExtend(f: Field, item: Item)
    ensures Items(Extend(f, item)) == Items(f) + [item]
  {
    hide Items;
    if item.Plain? && f != [] && f[|f| - 1].Splittable? {
      var front, text := f[..|f| - 1], f[|f| - 1].text;
      assert f == front + [Splittable(text)];
      ItemsConcat(front, [Splittable(text)]);
      ItemsConcat(front, [Splittable(text + [item.c])]);
      ItemsSingle(Splittable(text));
      ItemsSingle(Splittable(text + [item.c]));
      PlainsExtend(text, item.c);
      Reassociate(Items(front), PieceItems(Splittable(text)), [item]);
    } else if item.Plain? {
      ItemsConcat(f, [Splittable([item.c])]);
      ItemsSingle(Splittable([item.c]));
    } else {
      ItemsConcat(f, [Unsplittable(item.text)]);
      ItemsSingle(Unsplittable(item.text));
    }
  }

  lemma PlainsExtend(text: string, c: char)
    ensures PieceItems(Splittable(text + [c])) == PieceItems(Splittable(text)) + [Plain(c)]
  {
  }

  lemma NoItemsInNothing()
    ensures Items([]) == []
  {
  }

  lemma {:induction false} ItemsRegroup(items: seq<Item>)
    ensures Items(Regroup(items)) == items
  {
    hide Items, Extend;
    if items == [] {
      NoItemsInNothing();
    } else {
      var n := |items| - 1;
      ItemsRegroup(items[..n]);
      ItemsExtend(Regroup(items[..n]), items[n]);
      assert items == items[..n] + [items[n]];
    }
  }

  function RegroupAll(words: seq<seq<Item>>): (r: seq<Field>)
    ensures |r| == |words|
    ensures forall i :: 0 <= i < |words| ==> r[i] == Regroup(words[i])
  {
    seq(|words|, i requires 0 <= i < |words| => Regroup(words[i]))
  }

  lemma RegroupSnoc(run: seq<Item>, item: Item)
    ensures Extend(Regroup(run), item) == Regroup(run + [item])
  {
    var all := run + [item];
    assert all[..|all| - 1] == run && all[|all| - 1] == item;
  }

  lemma SplitRunEnds(run: seq<Item>, items: seq<Item>, ifs: string)
    requires items == [] || IsSeparator(items[0], ifs)
    ensures SplitOn(Regroup(run), items, ifs) == NonEmpty(Regroup(run)) + SplitOn([], items, ifs)
  {
    hide Regroup, Extend;
    if items == [] {
      assert NonEmpty(Regroup(run)) + NonEmpty([]) == NonEmpty(Regroup(run));
    } else {
      assert NonEmpty([]) + SplitOn([], items[1..], ifs) == SplitOn([], items[1..], ifs);
    }
  }

  lemma RunShift(run: seq<Item>, items: seq<Item>, n: nat)
    requires 0 < n <= |items|
    ensures (run + [items[0]]) + items[1..][..n - 1] == run + items[..n]
    ensures items[1..][n - 1..] == items[n..]
  {
  }

  lemma {:induction false} SplitRun(run: seq<Item>, items: seq<Item>, ifs: string)
    ensures var n := RunLength(items, ifs);
            SplitOn(Regroup(run), items, ifs)
            == NonEmpty(Regroup(run + items[..n])) + SplitOn([], items[n..], ifs)
    decreases |items|
  {
    hide Regroup, Extend, NonEmpty;
    var n := RunLength(items, ifs);
    if n == 0 {
      assert run + items[..0] == run && items[0..] == items;
      SplitRunEnds(run, items, ifs);
    } else {
      RegroupSnoc(run, items[0]);
      SplitRun(run + [items[0]], items[1..], ifs);
      RunShift(run, items, n);
    }
  }

  lemma {:induction false} RegroupNonEmpty(run: seq<Item>)
    ensures Regroup(run) == [] <==> run == []
  {
  }

  lemma RegroupAllCons(run: seq<Item>, words: seq<seq<Item>>)
    ensures RegroupAll([run] + words) == [Regroup(run)] + RegroupAll(words)
  {
    hide Regroup;
  }

  /** Splitting a field gives one field for each maximal run between separators. */
  lemma {:induction false} SplitIsWords(items: seq<Item>, ifs: string)
    ensures SplitOn([], items, ifs) == RegroupAll(Words(items, ifs))
    decreases |items|
  {
    hide Extend, RegroupAll;
    if items == [] {
      assert RegroupAll([]) == [];
    } else if IsSeparator(items[0], ifs) {
      SplitIsWords(items[1..], ifs);
      assert [] + SplitOn([], items[1..], ifs) == SplitOn([], items[1..], ifs);
    } else {
      SplitFirstRun(items, ifs);
      var n := RunLength(items, ifs);
      SplitIsWords(items[n..], ifs);
      RegroupAllCons(items[..n], Words(items[n..], ifs));
    }
  }

  lemma SplitFirstRun(items: seq<Item>, ifs: string)
    requires items != [] && !IsSeparator(items[0], ifs)
    ensures var n := RunLength(items, ifs);
            n > 0 && SplitOn([], items, ifs) == [Regroup(items[..n])] + SplitOn([], items[n..], ifs)
  {
    hide SplitOn, Extend;
    var n := RunLength(items, ifs);
    SplitRun([], items, ifs);
    assert [] + items[..n] == items[..n];
    RegroupNonEmpty(items[..n]);
  }

  function Flatten(words: seq<seq<Item>>): seq<Item> {
    if words == [] then [] else words[0] + Flatten(words[1..])
  }

  function Kept(items: seq<Item>, ifs: string): seq<Item> {
    if items == [] then []
    else if IsSeparator(items[0], ifs) then Kept(items[1..], ifs)
    else [items[0]] + Kept(items[1..], ifs)
  }

  lemma FirstOfRun(items: seq<Item>, n: nat, more: seq<Item>)
    requires 0 < n <= |items|
    ensures [items[0]] + (items[1..][..n - 1] + more) == items[..n] + more
    ensures items[1..][n - 1..] == items[n..]
  {
  }

  lemma {:induction false} KeptRun(items: seq<Item>, n: nat, ifs: string)
    requires n <= |items| && forall i :: 0 <= i < n ==> !IsSeparator(items[i], ifs)
    ensures Kept(items, ifs) == items[..n] + Kept(items[n..], ifs)
  {
    if n > 0 {
      var rest := items[1..];
      assert forall i :: 0 <= i < n - 1 ==> rest[i] == items[i + 1];
      KeptRun(rest, n - 1, ifs);
      FirstOfRun(items, n, Kept(items[n..], ifs));
    } else {
      assert items[0..] == items;
    }
  }

  /** The runs hold every item but the separators, in order; none is empty or holds one. */
  lemma {:induction false} WordsKeepAllButSeparators(items: seq<Item>, ifs: string)
    ensures Flatten(Words(items, ifs)) == Kept(items, ifs)
    ensures forall w :: w in Words(items, ifs) ==> w != [] && forall item :: item in w ==> !IsSeparator(item, ifs)
    decreases |items|
  {
    if items == [] {
    } else if IsSeparator(items[0], ifs) {
      WordsKeepAllButSeparators(items[1..], ifs);
    } else {
      var n := RunLength(items, ifs);
      WordsKeepAllButSeparators(items[n..], ifs);
      KeptRun(items, n, ifs);
      var words := Words(items[n..], ifs);
      assert ([items[..n]] + words)[0] == items[..n] && ([items[..n]] + words)[1..] == words;
    }
  }

  function AllItems(fields: seq<Field>): seq<Item> {
    if fields == [] then [] else Items(fields[0]) + AllItems(fields[1..])
  }

  lemma {:induction false} AllItemsConcat(a: seq<Field>, b: seq<Field>)
    ensures AllItems(a + b) == AllItems(a) + AllItems(b)
  {
    hide Items;
    if a == [] {
      assert a + b == b;
    } else {
      assert (a + b)[0] == a[0] && (a + b)[1..] == a[1..] + b;
      AllItemsConcat(a[1..], b);
      Reassociate(Items(a[0]), AllItems(a[1..]), AllItems(b));
    }
  }

  lemma {:induction false} KeptConcat(a: seq<Item>, b: seq<Item>, ifs: string)
    ensures Kept(a + b, ifs) == Kept(a, ifs) + Kept(b, ifs)
  {
    if a == [] {
      assert a + b == b;
    } else {
      assert (a + b)[0] == a[0] && (a + b)[1..] == a[1..] + b;
      KeptConcat(a[1..], b, ifs);
    }
  }

  lemma {:induction false} AllItemsRegroupAll(words: seq<seq<Item>>)
    ensures AllItems(RegroupAll(words)) == Flatten(words)
  {
    hide Items, Regroup;
    if words != [] {
      RegroupAllCons(words[0], words[1..]);
      assert [words[0]] + words[1..] == words;
      var r := RegroupAll(words);
      assert r[0] == Regroup(words[0]) && r[1..] == RegroupAll(words[1..]);
      ItemsRegroup(words[0]);
      AllItemsRegroupAll(words[1..]);
    }
  }

  /** Splitting removes the separator characters of splittable pieces and nothing else:
      unsplittable pieces and every other character come out verbatim and in order. */
  lemma {:induction false} SplitFieldsKeeps(fields: seq<Field>, ifs: string)
    ensures AllItems(SplitFields(fields, ifs)) == Kept(AllItems(fields), ifs)
  {
    hide Items, SplitOn, Words, Flatten, RegroupAll;
    if fields != [] {
      var items := Items(fields[0]);
      SplitIsWords(items, ifs);
      WordsKeepAllButSeparators(items, ifs);
      AllItemsRegroupAll(Words(items, ifs));
      SplitFieldsKeeps(fields[1..], ifs);
      AllItemsConcat(SplitOn([], items, ifs), SplitFields(fields[1..], ifs));
      KeptConcat(items, AllItems(fields[1..]), ifs);
    }
  }

  /** What splitting promises of each field: it is not empty, and its splittable pieces hold
      something and no separator. */
  predicate IsSplit(f: Field, ifs: string) {
    && f != []
    && forall p :: p in f && p.Splittable? ==> p.text != "" && forall c :: c in p.text ==> c !in ifs
  }

  lemma {:induction false} RegroupHasNoEmptySplittable(items: seq<Item>)
    ensures forall p :: p in Regroup(items) && p.Splittable? ==> p.text != ""
  {
    if items != [] {
      RegroupHasNoEmptySplittable(items[..|items| - 1]);
    }
  }

  lemma {:induction false} CharIsItem(f: Field, p: Piece, c: char)
    requires p in f && p.Splittable? && c in p.text
    ensures Plain(c) in Items(f)
  {
    if p == f[0] {
      var k :| 0 <= k < |p.text| && p.text[k] == c;
      assert PieceItems(p)[k] == Plain(c);
    } else {
      CharIsItem(f[1..], p, c);
    }
  }

  lemma WordIsSplit(w: seq<Item>, ifs: string)
    requires w != [] && forall item :: item in w ==> !IsSeparator(item, ifs)
    ensures IsSplit(Regroup(w), ifs)
  {
    hide Regroup;
    var f := Regroup(w);
    RegroupNonEmpty(w);
    RegroupHasNoEmptySplittable(w);
    ItemsRegroup(w);
    forall p, c | p in f && p.Splittable? && c in p.text ensures c !in ifs {
      CharIsItem(f, p, c);
      assert !IsSeparator(Plain(c), ifs);
    }
  }

  lemma {:induction false} SplitFieldsClean(fields: seq<Field>, ifs: string)
    ensures forall f :: f in SplitFields(fields, ifs) ==> IsSplit(f, ifs)
  {
    hide Items, SplitOn, Words, IsSplit;
    if fields != [] {
      var words := Words(Items(fields[0]), ifs);
      SplitIsWords(Items(fields[0]), ifs);
      WordsKeepAllButSeparators(Items(fields[0]), ifs);
      forall i | 0 <= i < |words| ensures IsSplit(RegroupAll(words)[i], ifs) {
        assert words[i] in words;
        WordIsSplit(words[i], ifs);
      }
      SplitFieldsClean(fields[1..], ifs);
    }
  }

  /** A field that splitting leaves as it is. */
  predicate Settled(f: Field, ifs: string) {
    SplitOn([], Items(f), ifs) == [f]
  }

  lemma {:induction false} WholeRun(w: seq<Item>, ifs: string)
    requires forall item :: item in w ==> !IsSeparator(item, ifs)
    ensures RunLength(w, ifs) == |w|
  {
    assert forall i :: 0 <= i < |w| ==> w[i] in w;
  }

  lemma WordSettles(w: seq<Item>, ifs: string)
    requires w != [] && forall item :: item in w ==> !IsSeparator(item, ifs)
    ensures Settled(Regroup(w), ifs)
  {
    hide Regroup, RunLength;
    ItemsRegroup(w);
    WholeRun(w, ifs);
    assert w[0] in w;
    SplitFirstRun(w, ifs);
    assert w[..|w|] == w && w[|w|..] == [];
    assert [Regroup(w)] + [] == [Regroup(w)];
  }

  lemma {:induction false} SplitFieldsConcat(a: seq<Field>, b: seq<Field>, ifs: string)
    ensures SplitFields(a + b, ifs) == SplitFields(a, ifs) + SplitFields(b, ifs)
  {
    hide SplitOn, Items;
    if a == [] {
      assert a + b == b;
    } else {
      assert (a + b)[0] == a[0] && (a + b)[1..] == a[1..] + b;
      SplitFieldsConcat(a[1..], b, ifs);
      Reassociate(SplitOn([], Items(a[0]), ifs), SplitFields(a[1..], ifs), SplitFields(b, ifs));
    }
  }

  lemma {:induction false} SettledFieldsStay(fields: seq<Field>, ifs: string)
    requires forall f :: f in fields ==> Settled(f, ifs)
    ensures SplitFields(fields, ifs) == fields
  {
    hide SplitOn, Items;
    if fields != [] {
      assert Settled(fields[0], ifs);
      SettledFieldsStay(fields[1..], ifs);
    }
  }

  /** Splitting what is already split changes nothing. */
  lemma {:induction false} SplitFieldsTwice(fields: seq<Field>, ifs: string)
    ensures SplitFields(SplitFields(fields, ifs), ifs) == SplitFields(fields, ifs)
  {
    hide SplitOn, Items, Words, Settled;
    if fields != [] {
      var words := Words(Items(fields[0]), ifs);
      SplitIsWords(Items(fields[0]), ifs);
      WordsKeepAllButSeparators(Items(fields[0]), ifs);
      forall i | 0 <= i < |words| ensures Settled(RegroupAll(words)[i], ifs) {
        assert words[i] in words;
        WordSettles(words[i], ifs);
      }
      SettledFieldsStay(RegroupAll(words), ifs);
      SplitFieldsTwice(fields[1..], ifs);
      SplitFieldsConcat(RegroupAll(words), SplitFields(fields[1..], ifs), ifs);
    }
  }

  // ----- Joining expansions -----

  /** The last field of one list and the first of the next become one field. */
  function Merge(a: seq<Field>, b: seq<Field>): seq<Field> {
    if a == [] then b
    else if b == [] then a
    else a[..|a| - 1] + [a[|a| - 1] + b[0]] + b[1..]
  }

  function MergeAll(lists: seq<seq<Field>>): seq<Field> {
    if lists == [] then [] else Merge(MergeAll(lists[..|lists| - 1]), lists[|lists| - 1])
  }

  lemma MergeAssociative(a: seq<Field>, b: seq<Field>, c: seq<Field>)
    ensures Merge(Merge(a, b), c) == Merge(a, Merge(b, c))
  {
    if a != [] && b != [] && c != [] {
      var x, y := a[|a| - 1], c[0];
      if |b| == 1 {
        MergeThree(a, b[0], c);
      } else {
        MergeApart(a, b, c);
      }
    }
  }

  lemma MergeThree(a: seq<Field>, m: Field, c: seq<Field>)
    requires a != [] && c != []
    ensures Merge(Merge(a, [m]), c) == Merge(a, Merge([m], c))
  {
    var x := a[|a| - 1];
    var left := a[..|a| - 1] + [x + m];
    assert Merge(a, [m]) == left;
    assert left[..|left| - 1] == a[..|a| - 1] && left[|left| - 1] == x + m;
    assert Merge([m], c) == [m + c[0]] + c[1..];
    Reassociate(x, m, c[0]);
  }

  lemma MergeApart(a: seq<Field>, b: seq<Field>, c: seq<Field>)
    requires a != [] && |b| >= 2 && c != []
    ensures Merge(Merge(a, b), c) == Merge(a, Merge(b, c))
  {
    var front, x, m, z := a[..|a| - 1], a[|a| - 1], b[1..|b| - 1], b[|b| - 1];
    var ab, bc := Merge(a, b), Merge(b, c);
    assert ab[|ab| - 1] == z && ab[..|ab| - 1] == front + [x + b[0]] + m;
    assert bc[0] == b[0] && bc[1..] == m + [z + c[0]] + c[1..];
  }

  lemma {:induction false} MergeAllConcat(xs: seq<seq<Field>>, ys: seq<seq<Field>>)
    ensures MergeAll(xs + ys) == Merge(MergeAll(xs), MergeAll(ys))
    decreases |ys|
  {
    hide Merge;
    if ys == [] {
      assert xs + ys == xs;
      MergeNothing(MergeAll(xs));
    } else {
      var n := |ys| - 1;
      var all := xs + ys;
      assert all[..|all| - 1] == xs + ys[..n] && all[|all| - 1] == ys[n];
      MergeAllConcat(xs, ys[..n]);
      MergeAssociative(MergeAll(xs), MergeAll(ys[..n]), ys[n]);
    }
  }

  lemma MergeNothing(a: seq<Field>)
    ensures Merge(a, []) == a && Merge([], a) == a
  {
  }

  /** Joining keeps every piece in order, and loses a field boundary only between two non-empty
      lists. */
  lemma MergeKeepsItems(a: seq<Field>, b: seq<Field>)
    ensures AllItems(Merge(a, b)) == AllItems(a) + AllItems(b)
    ensures |Merge(a, b)| == |a| + |b| - if a == [] || b == [] then 0 else 1
  {
    if a != [] && b != [] {
      var front, x := a[..|a| - 1], a[|a| - 1];
      assert a == front + [x];
      JoinedItems(front, x, b[0], b[1..]);
      assert b == [b[0]] + b[1..];
    }
  }

  lemma AllItemsSingle(f: Field)
    ensures AllItems([f]) == Items(f)
  {
    hide Items;
    assert AllItems([f]) == Items(f) + AllItems([]);
    assert Items(f) + [] == Items(f);
  }

  lemma JoinedItems(front: seq<Field>, x: Field, y: Field, back: seq<Field>)
    ensures AllItems(front + [x + y] + back) == AllItems(front + [x]) + AllItems([y] + back)
  {
    hide Items, AllItems;
    AllItemsConcat(front + [x + y], back);
    AllItemsConcat(front, [x + y]);
    AllItemsConcat(front, [x]);
    AllItemsConcat([y], back);
    AllItemsSingle(x + y);
    AllItemsSingle(x);
    AllItemsSingle(y);
    ItemsConcat(x, y);
    Reassociate(AllItems(front), Items(x), Items(y));
    Reassociate(AllItems(front) + Items(x), Items(y), AllItems(back));
  }

  function ItemsOfEach(lists: seq<seq<Field>>): seq<Item> {
    if lists == [] then [] else ItemsOfEach(lists[..|lists| - 1]) + AllItems(lists[|lists| - 1])
  }

  lemma {:induction false} MergeAllKeepsItems(lists: seq<seq<Field>>)
    ensures AllItems(MergeAll(lists)) == ItemsOfEach(lists)
  {
    hide Merge, Items;
    if lists != [] {
      var n := |lists| - 1;
      MergeAllKeepsItems(lists[..n]);
      MergeKeepsItems(MergeAll(lists[..n]), lists[n]);
    }
  }

  function FieldsOfEach(expansions: seq<Expansion>): (r: seq<seq<Field>>)
    ensures |r| == |expansions| && forall i :: 0 <= i < |r| ==> r[i] == expansions[i].fields
  {
    seq(|expansions|, i requires 0 <= i < |expansions| => expansions[i].fields)
  }

  /** The expansions of a word's pieces as one: the fields joined, the other attributes those of
      the last one, never undefined. */
  function Coalesced(expansions: seq<Expansion>): Expansion {
    var n := |expansions|;
    Expansion(MergeAll(FieldsOfEach(expansions)),
              n == 0 || expansions[n - 1].concatenate,
              n != 0 && expansions[n - 1].fromArray,
              false)
  }

  /** The last piece of a word decides how the word is joined and whether it is an array; nothing at
      all joins and is none. */
  lemma CoalescedAttributes(before: seq<Expansion>, e: Expansion)
    ensures var c := Coalesced(before + [e]);
            c.concatenate == e.concatenate && c.fromArray == e.fromArray && !c.undefined
    ensures Coalesced([e]).fields == e.fields && Coalesced([]) == Expansion([], true, false, false)
  {
    assert FieldsOfEach([e]) == [e.fields];
    MergeAllOne(e.fields);
  }

  lemma MergeAllSnoc(lists: seq<seq<Field>>, i: nat)
    requires i < |lists|
    ensures MergeAll(lists[..i + 1]) == Merge(MergeAll(lists[..i]), lists[i])
  {
    hide Merge;
    var upTo := lists[..i + 1];
    assert upTo[..|upTo| - 1] == lists[..i] && upTo[|upTo| - 1] == lists[i];
  }

  lemma MergeStep(acc: seq<Field>, fields: seq<Field>, i: nat)
    requires i < |fields|
    ensures Merge(acc, fields[..i + 1])
         == var sofar := Merge(acc, fields[..i]);
            if i == 0 && acc != [] then acc[..|acc| - 1] + [acc[|acc| - 1] + fields[0]]
            else sofar + [fields[i]]
  {
    assert fields[..i + 1] == fields[..i] + [fields[i]];
    if acc == [] {
    } else if i == 0 {
      assert fields[..1] == [fields[0]] && fields[..1][1..] == [];
    } else {
      assert fields[..i + 1][1..] == fields[..i][1..] + [fields[i]];
      assert fields[..i + 1][0] == fields[0] == fields[..i][0];
      Reassociate(acc[..|acc| - 1] + [acc[|acc| - 1] + fields[0]], fields[..i][1..], [fields[i]]);
    }
  }

  method CoalesceExpansions(expansions: seq<Expansion>) returns (acc: Expansion)
    ensures acc == Coalesced(expansions)
  {
    hide Merge, MergeAll;
    acc := Expansion([], true, false, false);
    ghost var lists := FieldsOfEach(expansions);
    EmptyMerge();
    assert lists[..0] == [];
    for k := 0 to |expansions|
      invariant acc == Expansion(MergeAll(lists[..k]), k == 0 || expansions[k - 1].concatenate,
                                 k != 0 && expansions[k - 1].fromArray, false)
    {
      var fields := AppendFields(acc.fields, expansions[k].fields);
      MergeAllSnoc(lists, k);
      acc := Expansion(fields, expansions[k].concatenate, expansions[k].fromArray, acc.undefined);
    }
    assert lists[..|lists|] == lists;
  }

  lemma EmptyMerge()
    ensures MergeAll([]) == []
  {
  }

  /** The loop over one expansion's fields: the first is added to the last so far. */
  method AppendFields(acc0: seq<Field>, fields: seq<Field>) returns (acc: seq<Field>)
    ensures acc == Merge(acc0, fields)
  {
    hide Merge;
    acc := acc0;
    assert fields[..0] == [];
    MergeNothing(acc0);
    for i := 0 to |fields|
      invariant acc == Merge(acc0, fields[..i])
      invariant i == 0 ==> acc == acc0
      invariant acc0 == [] || i > 0 ==> |acc| >= i
    {
      MergeStep(acc0, fields, i);
      if i == 0 && acc != [] {
        acc := acc[..|acc| - 1] + [acc[|acc| - 1] + fields[0]];
      } else {
        acc := acc + [fields[i]];
      }
    }
    assert fields[..|fields|] == fields;
  }

  // ----- Double quotes -----

  function Quote(f: Field): (r: Field)
    ensures |r| == |f| && forall i :: 0 <= i < |f| ==> r[i] == Unsplittable(f[i].text)
  {
    seq(|f|, i requires 0 <= i < |f| => Unsplittable(f[i].text))
  }

  function QuoteEach(fields: seq<Field>): (r: seq<Field>)
    ensures |r| == |fields| && forall i :: 0 <= i < |fields| ==> r[i] == Quote(fields[i])
  {
    seq(|fields|, i requires 0 <= i < |fields| => Quote(fields[i]))
  }

  function IfsFirstChar(ifs: string): char { if ifs == "" then ' ' else ifs[0] }

  /** All fields as one, the joiner between each two. */
  function Joined(fields: seq<Field>, joiner: char): Field {
    if fields == [] then []
    else if |fields| == 1 then Quote(fields[0])
    else Quote(fields[0]) + [Unsplittable([joiner])] + Joined(fields[1..], joiner)
  }

  /** What one piece contributes inside double quotes. */
  function Contribution(e: Expansion, joiner: char): seq<Field> {
    if !e.concatenate then QuoteEach(e.fields)
    else if Joined(e.fields, joiner) == [] then [[Unsplittable("")]]
    else [Joined(e.fields, joiner)]
  }

  function Contributions(pieces: seq<Expansion>, joiner: char): (r: seq<seq<Field>>)
    ensures |r| == |pieces| && forall i :: 0 <= i < |r| ==> r[i] == Contribution(pieces[i], joiner)
  {
    seq(|pieces|, i requires 0 <= i < |pieces| => Contribution(pieces[i], joiner))
  }

  function DoubleQuoted(pieces: seq<Expansion>, ifs: string): seq<Field> {
    if pieces == [] then [[Unsplittable("")]]
    else MergeAll(Contributions(pieces, IfsFirstChar(ifs)))
  }

  predicate AllUnsplittable(f: Field) {
    forall p :: p in f ==> p.Unsplittable?
  }

  lemma {:induction false} JoinedUnsplittable(fields: seq<Field>, joiner: char)
    ensures AllUnsplittable(Joined(fields, joiner))
  {
    if fields != [] {
      JoinedUnsplittable(fields[1..], joiner);
    }
  }

  lemma QuoteUnsplittable(f: Field)
    requires AllUnsplittable(f)
    ensures Quote(f) == f
  {
  }

  method ProcessDoubleQuotedPieces(pieces: seq<Expansion>, ifs: string) returns (fields: seq<Field>)
    ensures fields == MergeAll(Contributions(pieces, IfsFirstChar(ifs)))
  {
    hide Merge, MergeAll, Joined;
    fields := [];
    var joiner := IfsFirstChar(ifs);
    ghost var lists := Contributions(pieces, joiner);
    EmptyMerge();
    assert lists[..0] == [];
    for k := 0 to |pieces|
      invariant fields == MergeAll(lists[..k])
    {
      var fieldsToAppend := pieces[k].fields;
      if pieces[k].concatenate {
        var concatenated := Joined(pieces[k].fields, joiner);
        JoinedUnsplittable(pieces[k].fields, joiner);
        QuoteUnsplittable(concatenated);
        if concatenated == [] {
          concatenated := concatenated + [Splittable("")];
          assert Quote(concatenated) == [Unsplittable("")];
        }
        fieldsToAppend := [concatenated];
      }
      assert QuoteEach(fieldsToAppend) == lists[k];
      fields := AppendFields(fields, QuoteEach(fieldsToAppend));
      MergeAllSnoc(lists, k);
    }
    assert lists[..|lists|] == lists;
  }

  /** A double-quoted word piece; with nothing between the quotes it is one empty field. */
  method ExpandDoubleQuotedSequence(pieces: seq<Expansion>, ifs: string) returns (e: Expansion)
    ensures e == Expansion(DoubleQuoted(pieces, ifs), false, false, false)
  {
    var fields := ProcessDoubleQuotedPieces(pieces, ifs);
    if pieces == [] {
      EmptyMerge();
      fields := fields + [[Unsplittable("")]];
    }
    e := Expansion(fields, false, false, false);
  }

  lemma {:induction false} MergeAllUnsplittable(lists: seq<seq<Field>>)
    requires forall i, f :: 0 <= i < |lists| && f in lists[i] ==> AllUnsplittable(f)
    ensures forall f :: f in MergeAll(lists) ==> AllUnsplittable(f)
  {
    hide AllUnsplittable, Merge;
    if lists != [] {
      var n := |lists| - 1;
      MergeAllUnsplittable(lists[..n]);
      MergeUnsplittable(MergeAll(lists[..n]), lists[n]);
    }
  }

  lemma MergeUnsplittable(a: seq<Field>, b: seq<Field>)
    requires forall f :: f in a + b ==> AllUnsplittable(f)
    ensures forall f :: f in Merge(a, b) ==> AllUnsplittable(f)
  {
    if a != [] && b != [] {
      assert a[|a| - 1] in a + b && b[0] in a + b;
    }
  }

  lemma DoubleQuotedUnsplittable(pieces: seq<Expansion>, ifs: string)
    ensures forall f :: f in DoubleQuoted(pieces, ifs) ==> AllUnsplittable(f)
  {
    hide Merge, MergeAll;
    var joiner := IfsFirstChar(ifs);
    var lists := Contributions(pieces, joiner);
    forall i, f | 0 <= i < |lists| && f in lists[i] ensures AllUnsplittable(f) {
      JoinedUnsplittable(pieces[i].fields, joiner);
    }
    MergeAllUnsplittable(lists);
  }

  lemma {:induction false} UnsplittableItems(f: Field, ifs: string)
    requires AllUnsplittable(f)
    ensures |Items(f)| == |f|
    ensures forall i :: 0 <= i < |f| ==> Items(f)[i] == Quoted(f[i].text)
  {
    if f != [] {
      UnsplittableItems(f[1..], ifs);
    }
  }

  lemma {:induction false} RegroupQuoted(f: Field)
    requires AllUnsplittable(f)
    ensures Regroup(Items(f)) == f
  {
    hide Items;
    UnsplittableItems(f, "");
    if f != [] {
      var n := |f| - 1;
      UnsplittableItems(f[..n], "");
      assert Items(f)[..n] == Items(f[..n]);
      RegroupQuoted(f[..n]);
      assert f[n] in f;
      RegroupLast(Items(f), f[n]);
      assert f == f[..n] + [f[n]];
    } else {
      assert Items(f) == [];
    }
  }

  lemma RegroupLast(items: seq<Item>, p: Piece)
    requires items != [] && p.Unsplittable? && items[|items| - 1] == Quoted(p.text)
    ensures Regroup(items) == Regroup(items[..|items| - 1]) + [p]
  {
  }

  lemma UnsplittableSettled(f: Field, ifs: string)
    requires f != [] && AllUnsplittable(f)
    ensures Settled(f, ifs)
  {
    hide Items, Regroup;
    UnsplittableItems(f, ifs);
    RegroupQuoted(f);
    WordSettles(Items(f), ifs);
  }

  function DropEmpty(fields: seq<Field>): seq<Field> {
    if fields == [] then [] else NonEmpty(fields[0]) + DropEmpty(fields[1..])
  }

  /** Double quotes make text immune: whatever IFS is then used, splitting changes nothing but
      to drop fields without pieces. */
  lemma {:induction false} UnsplittableImmune(fields: seq<Field>, ifs: string)
    requires forall f :: f in fields ==> AllUnsplittable(f)
    ensures SplitFields(fields, ifs) == DropEmpty(fields)
  {
    hide AllUnsplittable;
    if fields != [] {
      if fields[0] != [] {
        UnsplittableSettled(fields[0], ifs);
      }
      UnsplittableImmune(fields[1..], ifs);
    }
  }

  lemma DoubleQuotedImmune(pieces: seq<Expansion>, ifs: string, splitIfs: string)
    ensures SplitFields(DoubleQuoted(pieces, ifs), splitIfs) == DropEmpty(DoubleQuoted(pieces, ifs))
  {
    DoubleQuotedUnsplittable(pieces, ifs);
    UnsplittableImmune(DoubleQuoted(pieces, ifs), splitIfs);
  }

  function Parameters(args: seq<string>): (r: seq<Field>)
    ensures |r| == |args| && forall i :: 0 <= i < |r| ==> r[i] == [Splittable(args[i])]
  {
    seq(|args|, i requires 0 <= i < |args| => [Splittable(args[i])])
  }

  lemma {:induction false} DropEmptyKeeps(fields: seq<Field>)
    requires forall f :: f in fields ==> f != []
    ensures DropEmpty(fields) == fields
  {
    if fields != [] {
      assert fields[0] in fields;
      assert forall f :: f in fields[1..] ==> f in fields;
      DropEmptyKeeps(fields[1..]);
    }
  }

  /** Quoting all positional parameters without concatenation, then splitting, gives back every
      parameter as a word of its own, empty ones and ones full of separators too. */
  lemma QuotedAtKeepsParameters(args: seq<string>, ifs: string)
    ensures var result := SplitFields(DoubleQuoted([Expansion(Parameters(args), false, true, false)], ifs), ifs);
            |result| == |args| && forall i :: 0 <= i < |args| ==> result[i] == [Unsplittable(args[i])]
  {
    var e := Expansion(Parameters(args), false, true, false);
    var lists := Contributions([e], IfsFirstChar(ifs));
    assert lists == [QuoteEach(e.fields)];
    MergeAllOne(QuoteEach(e.fields));
    DoubleQuotedImmune([e], ifs, ifs);
    DropEmptyKeeps(QuoteEach(e.fields));
  }

  lemma MergeAllOne(fields: seq<Field>)
    ensures MergeAll([fields]) == fields
  {
    assert [fields][..0] == [];
  }

  function Join(texts: seq<string>, joiner: char): string {
    if texts == [] then ""
    else if |texts| == 1 then texts[0]
    else texts[0] + [joiner] + Join(texts[1..], joiner)
  }

  function FieldTexts(fields: seq<Field>): (r: seq<string>)
    ensures |r| == |fields| && forall i :: 0 <= i < |r| ==> r[i] == FieldText(fields[i])
  {
    seq(|fields|, i requires 0 <= i < |fields| => FieldText(fields[i]))
  }

  /** Where a word must become one string: concatenating expansions join with the first IFS
      character, others with a space. */
  function FieldsToString(e: Expansion, ifs: string): string {
    Join(FieldTexts(e.fields), if e.concatenate then IfsFirstChar(ifs) else ' ')
  }

  lemma {:induction false} QuoteText(f: Field)
    ensures FieldText(Quote(f)) == FieldText(f)
  {
    if f != [] {
      assert Quote(f)[1..] == Quote(f[1..]);
      QuoteText(f[1..]);
    }
  }

  lemma {:induction false} FieldTextConcat(f: Field, g: Field)
    ensures FieldText(f + g) == FieldText(f) + FieldText(g)
  {
    if f == [] {
      assert f + g == g;
    } else {
      assert (f + g)[0] == f[0] && (f + g)[1..] == f[1..] + g;
      FieldTextConcat(f[1..], g);
      Reassociate(f[0].text, FieldText(f[1..]), FieldText(g));
    }
  }

  lemma {:induction false} JoinedText(fields: seq<Field>, joiner: char)
    ensures FieldText(Joined(fields, joiner)) == Join(FieldTexts(fields), joiner)
  {
    if fields == [] {
    } else if |fields| == 1 {
      QuoteText(fields[0]);
    } else {
      JoinedText(fields[1..], joiner);
      assert FieldTexts(fields)[1..] == FieldTexts(fields[1..]);
      QuoteText(fields[0]);
      JoinedTextStep(Quote(fields[0]), joiner, Joined(fields[1..], joiner));
    }
  }

  lemma JoinedTextStep(f: Field, joiner: char, rest: Field)
    ensures FieldText(f + [Unsplittable([joiner])] + rest) == FieldText(f) + [joiner] + FieldText(rest)
  {
    FieldTextConcat(f + [Unsplittable([joiner])], rest);
    FieldTextConcat(f, [Unsplittable([joiner])]);
    assert FieldText([Unsplittable([joiner])]) == [joiner] + "";
  }

  /** Quoting a concatenating expansion, then splitting, gives exactly one word, whose text is the
      one the expansion has where it must become a string. */
  lemma QuotedStarIsOneWord(e: Expansion, ifs: string)
    requires e.concatenate
    ensures var result := SplitFields(DoubleQuoted([e], ifs), ifs);
            |result| == 1 && FieldText(result[0]) == FieldsToString(e, ifs)
  {
    var joiner := IfsFirstChar(ifs);
    var contribution := Contribution(e, joiner);
    assert Contributions([e], joiner) == [contribution];
    MergeAllOne(contribution);
    DoubleQuotedImmune([e], ifs, ifs);
    DropEmptyKeeps(contribution);
    JoinedText(e.fields, joiner);
  }

  // ----- Splitting in characters -----

  lemma {:induction false} SplitOnConcat(current: Field, a: seq<Item>, c: char, b: seq<Item>, ifs: string)
    requires c in ifs
    ensures SplitOn(current, a + ([Plain(c)] + b), ifs) == SplitOn(current, a, ifs) + SplitOn([], b, ifs)
    decreases |a|
  {
    var more := [Plain(c)] + b;
    if a == [] {
      assert a + more == more && more[0] == Plain(c) && more[1..] == b;
    } else {
      assert (a + more)[0] == a[0] && (a + more)[1..] == a[1..] + more;
      if IsSeparator(a[0], ifs) {
        SplitOnConcat([], a[1..], c, b, ifs);
        Reassociate(NonEmpty(current), SplitOn([], a[1..], ifs), SplitOn([], b, ifs));
      } else {
        SplitOnConcat(Extend(current, a[0]), a[1..], c, b, ifs);
      }
    }
  }

  lemma {:induction false} PlainItems(a: string, b: string)
    ensures PieceItems(Splittable(a + b)) == PieceItems(Splittable(a)) + PieceItems(Splittable(b))
  {
  }

  lemma OneFieldSplits(f: Field, ifs: string)
    ensures SplitFields([f], ifs) == SplitOn([], Items(f), ifs)
  {
    assert [f][1..] == [] && SplitOn([], Items(f), ifs) + [] == SplitOn([], Items(f), ifs);
  }

  /** Every character of IFS in splittable text separates: what is before it and what is after it,
      whatever pieces these are, are split as fields of their own. */
  lemma SplitsAtCharacter(before: Field, a: string, c: char, b: string, after: Field, ifs: string)
    requires c in ifs
    ensures SplitFields([before + [Splittable(a + [c] + b)] + after], ifs)
         == SplitFields([before + [Splittable(a)]], ifs) + SplitFields([[Splittable(b)] + after], ifs)
  {
    hide SplitOn, Items, PieceItems, SplitFields;
    var whole := before + [Splittable(a + [c] + b)] + after;
    OneFieldSplits(whole, ifs);
    OneFieldSplits(before + [Splittable(a)], ifs);
    OneFieldSplits([Splittable(b)] + after, ifs);
    SeparatedItems(before, a, c, b, after);
    SplitOnConcat([], Items(before + [Splittable(a)]), c, Items([Splittable(b)] + after), ifs);
  }

  lemma SeparatedItems(before: Field, a: string, c: char, b: string, after: Field)
    ensures Items(before + [Splittable(a + [c] + b)] + after)
         == Items(before + [Splittable(a)]) + ([Plain(c)] + Items([Splittable(b)] + after))
  {
    hide Items, PieceItems;
    var all := Splittable(a + [c] + b);
    ItemsConcat(before + [all], after);
    ItemsConcat(before, [all]);
    ItemsConcat(before, [Splittable(a)]);
    ItemsConcat([Splittable(b)], after);
    ItemsSingle(all);
    ItemsSingle(Splittable(a));
    ItemsSingle(Splittable(b));
    PlainItems(a + [c], b);
    PlainItems(a, [c]);
    OnePlain(c);
    var (x, y, z, w) := (Items(before), PieceItems(Splittable(a)), PieceItems(Splittable(b)), Items(after));
    assert x + (y + [Plain(c)] + z) + w == x + y + ([Plain(c)] + (z + w));
  }

  lemma OnePlain(c: char)
    ensures PieceItems(Splittable([c])) == [Plain(c)]
  {
  }

  /** A text without any is one word, if it is not empty; a quoted piece is one word whatever it
      holds, even nothing. */
  lemma SplitsNothing(a: string, ifs: string)
    requires forall c :: c in a ==> c !in ifs
    ensures SplitFields([[Splittable(a)]], ifs) == if a == "" then [] else [[Splittable(a)]]
  {
    OneFieldSplits([Splittable(a)], ifs);
    ItemsSingle(Splittable(a));
    SplitOnPlain([], a, ifs);
    assert "" + a == a;
  }

  lemma {:induction false} SplitOnPlain(current: Field, a: string, ifs: string)
    requires forall c :: c in a ==> c !in ifs
    requires current == [] || (|current| == 1 && current[0].Splittable?)
    ensures SplitOn(current, PieceItems(Splittable(a)), ifs)
         == if a == "" then NonEmpty(current) else [[Splittable(Begun(current) + a)]]
    decreases |a|
  {
    hide SplitOn, PieceItems, Extend, Begun;
    if a == "" {
      NothingToSplit(current, ifs);
    } else {
      var c, rest := a[0], a[1..];
      assert c in a && forall d :: d in rest ==> d in a;
      PlainHead(a);
      PlainStep(current, c, PieceItems(Splittable(rest)), ifs);
      ExtendPlain(current, c);
      SplitOnPlain([Splittable(Begun(current) + [c])], rest, ifs);
      ExtendPlain([Splittable(Begun(current) + [c])], c);
      assert Begun(current) + [c] + rest == Begun(current) + a;
      assert rest == "" ==> a == [c];
    }
  }

  function Begun(f: Field): string { if f == [] then "" else f[0].text }

  lemma ExtendPlain(f: Field, c: char)
    requires f == [] || (|f| == 1 && f[0].Splittable?)
    ensures Extend(f, Plain(c)) == [Splittable(Begun(f) + [c])]
    ensures f != [] ==> Begun(f) == f[0].text
  {
    assert "" + [c] == [c];
  }

  lemma PlainHead(a: string)
    requires a != ""
    ensures PieceItems(Splittable(a)) == [Plain(a[0])] + PieceItems(Splittable(a[1..]))
  {
  }

  lemma NothingToSplit(current: Field, ifs: string)
    ensures SplitOn(current, PieceItems(Splittable("")), ifs) == NonEmpty(current)
  {
  }

  lemma PlainStep(current: Field, c: char, rest: seq<Item>, ifs: string)
    requires c !in ifs
    ensures SplitOn(current, [Plain(c)] + rest, ifs) == SplitOn(Extend(current, Plain(c)), rest, ifs)
  {
    hide Extend;
    assert ([Plain(c)] + rest)[0] == Plain(c) && ([Plain(c)] + rest)[1..] == rest;
  }

  lemma QuotedSplitsNothing(text: string, ifs: string)
    ensures SplitFields([[Unsplittable(text)]], ifs) == [[Unsplittable(text)]]
  {
    OneFieldSplits([Unsplittable(text)], ifs);
    ItemsSingle(Unsplittable(text));
    var items := [Quoted(text)];
    assert items[0] == Quoted(text) && items[1..] == [];
    assert Extend([], Quoted(text)) == [Unsplittable(text)];
    assert SplitOn([Unsplittable(text)], [], ifs) == [[Unsplittable(text)]];
    assert SplitOn([], items, ifs) == SplitOn([Unsplittable(text)], [], ifs);
  }

  // ----- What joins the positional parameters -----

  /** The character between the parameters: the first of IFS, or a space if IFS is empty. */
  ghost predicate IsJoiner(c: char, ifs: string) {
    if ifs == "" then c as int == 0x20 else exists more: string :: ifs == [c] + more
  }

  lemma JoinerOf(c: char, ifs: string)
    ensures IsJoiner(c, ifs) <==> c == IfsFirstChar(ifs)
  {
    if ifs != "" {
      assert ifs == [ifs[0]] + ifs[1..];
    }
  }

  /** The joined parameters: `"$*"` is one word with all of them, the first character of IFS between
      each two, and so is an unquoted `$*` that must become a string; one that is not concatenating
      is joined with spaces there. */
  lemma StarJoins(args: seq<string>, ifs: string, c: char, fromArray: bool, undefined: bool)
    requires IsJoiner(c, ifs)
    ensures var e := Expansion(Parameters(args), true, fromArray, undefined);
            var words := SplitFields(DoubleQuoted([e], ifs), ifs);
            && |words| == 1 && FieldText(words[0]) == Join(args, c)
            && FieldsToString(e, ifs) == Join(args, c)
            && FieldsToString(e.(concatenate := false), ifs) == Join(args, ' ')
  {
    hide DoubleQuoted, SplitFields, Join;
    var e := Expansion(Parameters(args), true, fromArray, undefined);
    JoinerOf(c, ifs);
    QuotedStarIsOneWord(e, ifs);
    forall i | 0 <= i < |args| ensures FieldText(e.fields[i]) == args[i] {
      assert FieldText([Splittable(args[i])]) == args[i] + FieldText([]);
    }
    assert FieldTexts(e.fields) == args;
  }

  /** Where text i begins when all are joined. */
  function JoinOffset(texts: seq<string>, i: nat): nat
    requires i <= |texts|
  {
    if i == 0 then 0 else JoinOffset(texts, i - 1) + |texts[i - 1]| + 1
  }

  lemma {:induction false} JoinOffsetTail(texts: seq<string>, i: nat)
    requires 0 < i <= |texts|
    ensures JoinOffset(texts, i) == |texts[0]| + 1 + JoinOffset(texts[1..], i - 1)
  {
    if i > 1 {
      JoinOffsetTail(texts, i - 1);
    }
  }

  /** Joining leaves every text as it is, in order, with one joiner before each but the first. */
  lemma {:induction false} JoinPlaces(texts: seq<string>, c: char, i: nat)
    requires i < |texts|
    ensures var (all, from) := (Join(texts, c), JoinOffset(texts, i));
            && |all| + 1 == JoinOffset(texts, |texts|)
            && from + |texts[i]| <= |all| && all[from..from + |texts[i]|] == texts[i]
            && (i > 0 ==> from > 0 && all[from - 1] == c)
    decreases |texts|
  {
    var head, rest := texts[0], texts[1..];
    if rest == [] {
      assert JoinOffset(texts, 1) == |head| + 1;
    } else {
      JoinPlaces(rest, c, if i == 0 then 0 else i - 1);
      JoinOffsetTail(texts, |texts|);
      var more := Join(rest, c);
      assert Join(texts, c) == head + [c] + more;
      assert head + [c] + more == head + ([c] + more);
      if i > 0 {
        JoinOffsetTail(texts, i);
        Behind(head, c, more, JoinOffset(rest, i - 1), |texts[i]|);
      }
    }
  }

  lemma Behind(head: string, c: char, more: string, from: nat, n: nat)
    requires from + n <= |more|
    ensures var (all, at) := (head + [c] + more, |head| + 1 + from);
            all[at..at + n] == more[from..from + n] && all[at - 1] == if from == 0 then c else more[from - 1]
  {
  }

  // ----- Unset, empty, or something -----

  datatype ParameterState = Undefined | DefinedEmptyString | NonZeroLength

  predicate FieldHasText(f: Field) {
    exists p :: p in f && p.text != ""
  }

  predicate HasText(fields: seq<Field>) {
    exists f :: f in fields && FieldHasText(f)
  }

  function Classify(e: Expansion): ParameterState {
    if e.undefined then Undefined
    else if HasText(e.fields) then NonZeroLength
    else if e.fields == [] then Undefined
    else DefinedEmptyString
  }

  lemma {:induction false} FieldHasTextIsText(f: Field)
    ensures FieldHasText(f) <==> FieldText(f) != ""
  {
    if f != [] {
      FieldHasTextIsText(f[1..]);
      assert f == [f[0]] + f[1..];
    }
  }

  lemma {:induction false} HasTextIsText(fields: seq<Field>)
    ensures HasText(fields) <==> Text(fields) != ""
  {
    hide FieldHasText;
    if fields != [] {
      HasTextIsText(fields[1..]);
      FieldHasTextIsText(fields[0]);
      assert fields == [fields[0]] + fields[1..];
    }
  }

  /** The three states read off the text and the number of fields alone. */
  lemma ClassifyByText(e: Expansion)
    ensures Classify(e) == NonZeroLength <==> !e.undefined && Text(e.fields) != ""
    ensures Classify(e) == Undefined <==> e.undefined || e.fields == []
  {
    HasTextIsText(e.fields);
  }
}
