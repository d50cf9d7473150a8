/** What an arithmetic expression does, construct by construct: which operands are evaluated, in
    which order and store, and what comes out, in terms of integers and texts. */
module EvaluationLaws {
  import opened Wrappers
  import opened Numerals
  import opened Division
  import opened Arithmetic
  import opened OperatorLaws

  /** The value of a truth. */
  predicate IsTruth(v: Value, truth: bool) {
    if truth then v == Number(1) else v == Number(0)
  }

  lemma BinaryUnfolds<S>(h: Host<S>, op: BinaryOperator, left: Expr, right: Expr, s: S, room: nat)
    ensures var (o, l) := (h.Eval(BinaryOp(op, left, right), s, room), h.Eval(left, s, room));
            o == if l.result.Error? then l else h.ApplyRight(op, l.result.value, right, l.store, room)
  {
    assert h.Eval(BinaryOp(op, left, right), s, room) == h.ApplyBinary(op, left, right, s, room);
  }

  // ----- Logical operators -----

  /** `&&` with a left operand of zero is zero at once: the right operand changes nothing and
      cannot fail. Otherwise it is the truth of the right operand. */
  lemma AndEvaluates<S>(h: Host<S>, left: Expr, right: Expr, s: S, room: nat, x: i64, s1: S)
    requires h.Eval(left, s, room) == Outcome(Number(x), s1)
    ensures var (o, r) := (h.Eval(BinaryOp(LogicalAnd, left, right), s, room), h.Eval(right, s1, room));
            if x == 0 then o == Outcome(Number(0), s1)
            else
              && o.store == r.store
              && if r.result.Error? then o.result == r.result else IsTruth(o.result, r.result.value != 0)
  {
    BinaryUnfolds(h, LogicalAnd, left, right, s, room);
  }

  /** `||` with a left operand that is not zero is one at once. */
  lemma OrEvaluates<S>(h: Host<S>, left: Expr, right: Expr, s: S, room: nat, x: i64, s1: S)
    requires h.Eval(left, s, room) == Outcome(Number(x), s1)
    ensures var (o, r) := (h.Eval(BinaryOp(LogicalOr, left, right), s, room), h.Eval(right, s1, room));
            if x != 0 then o == Outcome(Number(1), s1)
            else
              && o.store == r.store
              && if r.result.Error? then o.result == r.result else IsTruth(o.result, r.result.value != 0)
  {
    BinaryUnfolds(h, LogicalOr, left, right, s, room);
  }

  // ----- The other operators -----

  predicate IsLogical(op: BinaryOperator) { op.LogicalAnd? || op.LogicalOr? }

  /** An error in the left operand of any operator is the outcome. */
  lemma LeftErrorStops<S>(h: Host<S>, op: BinaryOperator, left: Expr, right: Expr, s: S, room: nat)
    requires h.Eval(left, s, room).result.Error?
    ensures h.Eval(BinaryOp(op, left, right), s, room) == h.Eval(left, s, room)
  {
    BinaryUnfolds(h, op, left, right, s, room);
  }

  /** All but the logical operators evaluate the right operand in the store that the left one
      leaves; an error there is the outcome. */
  lemma RightErrorStops<S>(h: Host<S>, op: BinaryOperator, left: Expr, right: Expr, s: S, room: nat, x: i64, s1: S)
    requires !IsLogical(op) && h.Eval(left, s, room) == Outcome(Number(x), s1)
    requires h.Eval(right, s1, room).result.Error?
    ensures h.Eval(BinaryOp(op, left, right), s, room) == h.Eval(right, s1, room)
  {
    BinaryUnfolds(h, op, left, right, s, room);
  }

  /** The 64-bit number congruent to an integer. */
  ghost predicate IsReduced(v: Value, n: int) {
    v.Number? && Congruent(v.value, n)
  }

  /** Truncated quotient and remainder of x and y, up to the one that needs 65 bits. */
  ghost predicate IsQuotient(v: Value, x: i64, y: i64) {
    exists q: int, r: int :: IsReduced(v, q) && TruncatedDivision(x, y, q, r)
  }

  ghost predicate IsRemainder(v: Value, x: i64, y: i64) {
    v.Number? && exists q: int :: TruncatedDivision(x, y, q, v.value)
  }

  ghost predicate TruncatedDivision(x: int, y: int, q: int, r: int) {
    q * y + r == x && Abs(r) < Abs(y) && (r == 0 || (r < 0) == (x < 0))
  }

  /** Bit by bit on the two's complement forms. */
  ghost predicate BitsAre(v: Value, x: i64, y: i64, f: (bool, bool) -> bool) {
    v.Number? && forall i: nat :: i < 64 ==>
      BitAt(v.value % MODULUS, i) == f(BitAt(x % MODULUS, i), BitAt(y % MODULUS, i))
  }

  /** What the operators that evaluate both operands make of two values. */
  ghost predicate Means(op: BinaryOperator, x: i64, y: i64, v: Value) {
    match op
    case Power => if y < 0 then v == Error(NegativeExponent) else IsReduced(v, Pow(x, y))
    case Multiply => IsReduced(v, x * y)
    case Divide => if y == 0 then v == Error(DivideByZero) else IsQuotient(v, x, y)
    case Modulo => if y == 0 then v == Error(DivideByZero) else IsRemainder(v, x, y)
    case Comma => v == Number(y)
    case Add => IsReduced(v, x + y)
    case Subtract => IsReduced(v, x - y)
    case ShiftLeft => IsReduced(v, x * Pow(2, y % 64))
    case ShiftRight => v.Number? && v.value * Pow(2, y % 64) <= x < (v.value + 1) * Pow(2, y % 64)
    case LessThan => IsTruth(v, x < y)
    case LessThanOrEqualTo => IsTruth(v, x <= y)
    case GreaterThan => IsTruth(v, x > y)
    case GreaterThanOrEqualTo => IsTruth(v, x >= y)
    case Equals => IsTruth(v, x == y)
    case NotEquals => IsTruth(v, x != y)
    case BitwiseAnd => BitsAre(v, x, y, (a, b) => a && b)
    case BitwiseOr => BitsAre(v, x, y, (a, b) => a || b)
    case BitwiseXor => BitsAre(v, x, y, (a, b) => a != b)
    case LogicalAnd => IsTruth(v, x != 0 && y != 0)
    case LogicalOr => IsTruth(v, x != 0 || y != 0)
  }

  lemma ReducedWrap(n: int)
    ensures IsReduced(Number(Wrap64(n)), n)
  {
    WrapCongruent(n);
  }

  lemma DivisionMeans(x: i64, y: i64)
    requires y != 0
    ensures IsQuotient(BinaryValue(Divide, x, y), x, y) && IsRemainder(BinaryValue(Modulo, x, y), x, y)
  {
    hide TruncDiv, TruncRem, Wrap64;
    var q, r := TruncDiv(x, y), TruncRem(x, y);
    TruncRecombine(x, y);
    WrapSmall(r, y);
    ReducedWrap(q);
    assert TruncatedDivision(x, y, q, r);
  }

  lemma ShiftMeans(x: i64, y: i64)
    ensures Means(ShiftLeft, x, y, BinaryValue(ShiftLeft, x, y))
    ensures Means(ShiftRight, x, y, BinaryValue(ShiftRight, x, y))
  {
    hide Pow, Wrap64, FloorShift;
    ReducedWrap(x * Pow(2, y % 64));
    ShiftRightFloors(x, y, BinaryValue(ShiftRight, x, y).value);
  }

  lemma BitwiseMeans(op: BinaryOperator, x: i64, y: i64)
    requires op.BitwiseAnd? || op.BitwiseOr? || op.BitwiseXor?
    ensures Means(op, x, y, BinaryValue(op, x, y))
  {
    hide Bitwise, BitAt;
    forall i: nat | i < 64
      ensures BitAt(Bitwise(op, x, y) % MODULUS, i) == CombineBits(op, BitAt(x % MODULUS, i), BitAt(y % MODULUS, i))
    {
      BitwiseBits(op, x, y, i);
    }
  }

  lemma OperatorMeans(op: BinaryOperator, x: i64, y: i64)
    ensures Means(op, x, y, BinaryValue(op, x, y))
  {
    hide Pow, Wrap64, FloorShift, Bitwise, TruncDiv, TruncRem, BitAt, IsReduced, IsQuotient, IsRemainder, BitsAre;
    match op
    case Power => if y >= 0 { ReducedWrap(Pow(x, y)); }
    case Multiply => ReducedWrap(x * y);
    case Divide | Modulo => if y != 0 { DivisionMeans(x, y); }
    case Add => ReducedWrap(x + y);
    case Subtract => ReducedWrap(x - y);
    case ShiftLeft | ShiftRight => ShiftMeans(x, y);
    case BitwiseAnd | BitwiseOr | BitwiseXor => BitwiseMeans(op, x, y);
    case _ =>
  }

  /** All but the logical operators mean what they mean in the integers, in the store that the
      right operand leaves. */
  lemma OperatorEvaluates<S>(h: Host<S>, op: BinaryOperator, left: Expr, right: Expr, s: S, room: nat,
                             x: i64, s1: S, y: i64, s2: S)
    requires !IsLogical(op)
    requires h.Eval(left, s, room) == Outcome(Number(x), s1) && h.Eval(right, s1, room) == Outcome(Number(y), s2)
    ensures var o := h.Eval(BinaryOp(op, left, right), s, room); Means(op, x, y, o.result) && o.store == s2
  {
    hide BinaryValue, Means;
    OperatorMeans(op, x, y);
    BinaryUnfolds(h, op, left, right, s, room);
  }

  // ----- The meaning determines the value -----

  lemma ReducedUnique(v: Value, w: Value, n: int)
    requires IsReduced(v, n) && IsReduced(w, n)
    ensures v == w
  {
    assert (v.value - n) - (w.value - n) == v.value - w.value;
  }

  lemma FactorAtLeast(k: int, y: int)
    requires k != 0
    ensures Abs(k * y) >= Abs(y)
  {
    if y != 0 {
      AtLeastOnce(Abs(k), Abs(y));
      assert Abs(k * y) == Abs(k) * Abs(y);
    }
  }

  lemma DivisionUnique(x: int, y: int, q: int, r: int, q': int, r': int)
    requires TruncatedDivision(x, y, q, r) && TruncatedDivision(x, y, q', r')
    ensures q == q' && r == r'
  {
    assert (q - q') * y == q * y - q' * y;
    if q != q' {
      FactorAtLeast(q - q', y);
    }
  }

  lemma QuotientUnique(x: i64, y: i64, v: Value, w: Value)
    ensures IsQuotient(v, x, y) && IsQuotient(w, x, y) ==> v == w
    ensures IsRemainder(v, x, y) && IsRemainder(w, x, y) ==> v == w
  {
    hide IsReduced, TruncatedDivision;
    if IsQuotient(v, x, y) && IsQuotient(w, x, y) {
      var q, r :| IsReduced(v, q) && TruncatedDivision(x, y, q, r);
      var q', r' :| IsReduced(w, q') && TruncatedDivision(x, y, q', r');
      DivisionUnique(x, y, q, r, q', r');
      ReducedUnique(v, w, q);
    }
    if IsRemainder(v, x, y) && IsRemainder(w, x, y) {
      var q :| TruncatedDivision(x, y, q, v.value);
      var q' :| TruncatedDivision(x, y, q', w.value);
      DivisionUnique(x, y, q, v.value, q', w.value);
    }
  }

  lemma FloorUnique(x: int, p: int, q: int, q': int)
    requires p > 0 && q * p <= x < (q + 1) * p && q' * p <= x < (q' + 1) * p
    ensures q == q'
  {
    assert (q - q') * p == q * p - q' * p && (q + 1) * p == q * p + p && (q' + 1) * p == q' * p + p;
    if q != q' {
      FactorAtLeast(q - q', p);
    }
  }

  lemma {:induction false} BitsUnique(x: nat, y: nat, n: nat)
    requires x < Pow(2, n) && y < Pow(2, n) && forall i: nat :: i < n ==> BitAt(x, i) == BitAt(y, i)
    ensures x == y
  {
    if n > 0 {
      assert BitAt(x, 0) == BitAt(y, 0);
      forall i: nat | i < n - 1 ensures BitAt(x / 2, i) == BitAt(y / 2, i) {
        assert BitAt(x, i + 1) == BitAt(y, i + 1);
      }
      BitsUnique(x / 2, y / 2, n - 1);
    }
  }

  lemma BitsAreUnique(v: Value, w: Value, x: i64, y: i64, f: (bool, bool) -> bool)
    requires BitsAre(v, x, y, f) && BitsAre(w, x, y, f)
    ensures v == w
  {
    hide BitAt, Pow, Wrap64;
    TwoTo64();
    var a, b := v.value % MODULUS, w.value % MODULUS;
    forall i: nat | i < 64 ensures BitAt(a, i) == BitAt(b, i) {
      assert BitAt(a, i) == f(BitAt(x % MODULUS, i), BitAt(y % MODULUS, i));
    }
    BitsUnique(a, b, 64);
    SignedForm(v.value);
    SignedForm(w.value);
  }

  lemma MeaningUnique(op: BinaryOperator, x: i64, y: i64, v: Value, w: Value)
    requires Means(op, x, y, v) && Means(op, x, y, w)
    ensures v == w
  {
    hide IsReduced, IsQuotient, IsRemainder, BitsAre, Pow;
    match op
    case Power => if y >= 0 { ReducedUnique(v, w, Pow(x, y)); }
    case Multiply => ReducedUnique(v, w, x * y);
    case Divide | Modulo => QuotientUnique(x, y, v, w);
    case Add => ReducedUnique(v, w, x + y);
    case Subtract => ReducedUnique(v, w, x - y);
    case ShiftLeft => ReducedUnique(v, w, x * Pow(2, y % 64));
    case ShiftRight =>
      PowPositive(y % 64);
      FloorUnique(x, Pow(2, y % 64), v.value, w.value);
    case BitwiseAnd => BitsAreUnique(v, w, x, y, (a, b) => a && b);
    case BitwiseOr => BitsAreUnique(v, w, x, y, (a, b) => a || b);
    case BitwiseXor => BitsAreUnique(v, w, x, y, (a, b) => a != b);
    case _ =>
  }

  // ----- Unary operators, conditionals -----

  /** A unary operator keeps the operand's store and passes its errors on. */
  lemma UnaryEvaluates<S>(h: Host<S>, op: UnaryOperator, operand: Expr, s: S, room: nat)
    ensures var (o, r) := (h.Eval(UnaryOp(op, operand), s, room), h.Eval(operand, s, room));
            && o.store == r.store
            && if r.result.Error? then o.result == r.result
               else
                 var x := r.result.value;
                 match op
                 case UnaryPlus => o.result == Number(x)
                 case UnaryMinus => IsReduced(o.result, 0 - x)
                 case BitwiseNot => o.result.Number? && o.result.value + x == -1
                 case LogicalNot => IsTruth(o.result, x == 0)
  {
    hide Wrap64;
    assert h.Eval(UnaryOp(op, operand), s, room) == h.ApplyUnary(op, operand, s, room);
    var r := h.Eval(operand, s, room).result;
    if r.Number? {
      ReducedWrap(0 - r.value);
    }
  }

  /** A conditional is the branch that the condition picks, in the condition's store; the other
      branch changes nothing and cannot fail. */
  lemma ConditionalEvaluates<S>(h: Host<S>, condition: Expr, yes: Expr, no: Expr, s: S, room: nat)
    ensures var (o, c) := (h.Eval(Conditional(condition, yes, no), s, room), h.Eval(condition, s, room));
            match c.result
            case Error(_) => o == c
            case Number(x) => if x == 0 then o == h.Eval(no, c.store, room) else o == h.Eval(yes, c.store, room)
  {
    assert h.Eval(Conditional(condition, yes, no), s, room) == h.Choose(condition, yes, no, s, room);
  }

  // ----- References -----

  /** What becomes of the text of a variable or an element: a numeral is its value, even with no
      room left; anything else is evaluated with one level less. */
  ghost predicate TextEvaluates<S>(h: Host<S>, text: string, s: S, room: nat, o: Outcome<S>) {
    match h.parse(text)
    case None => o == Outcome(Error(ParseError(text)), s)
    case Some(Literal(v)) => o == Outcome(Number(v), s)
    case Some(e) => if room == 0 then o == Outcome(Error(RecursionLimitExceeded), s) else o == h.Eval(e, s, room - 1)
  }

  /** A variable that is not set is the empty text, or an error if the shell is told so. */
  lemma VariableEvaluates<S>(h: Host<S>, name: string, s: S, room: nat)
    ensures var o := h.Eval(Reference(Target.Variable(name)), s, room);
            match h.lookup(s, Scalar(name))
            case Found(text) => TextEvaluates(h, text, s, room, o)
            case Absent =>
              if h.unsetIsError(s) then o == Outcome(Error(ExpandingUnsetVariable(name)), s)
              else TextEvaluates(h, "", s, room, o)
            case Failed => o == Outcome(Error(FailedToAccessArray), s)
  {
    var target := Target.Variable(name);
    assert h.Eval(Reference(target), s, room) == h.Deref(target, s, room);
    assert h.Deref(target, s, room) == h.EvalPlace(Scalar(name), s, room);
    hide Host.EvalPlace, TextEvaluates;
    PlaceEvaluates(h, Scalar(name), s, room);
  }

  lemma PlaceEvaluates<S>(h: Host<S>, place: Place, s: S, room: nat)
    ensures match h.lookup(s, place)
            case Found(text) => TextEvaluates(h, text, s, room, h.EvalPlace(place, s, room))
            case Absent =>
              if place.Scalar? && h.unsetIsError(s)
              then h.EvalPlace(place, s, room) == Outcome(Error(ExpandingUnsetVariable(place.name)), s)
              else TextEvaluates(h, "", s, room, h.EvalPlace(place, s, room))
            case Failed => h.EvalPlace(place, s, room) == Outcome(Error(FailedToAccessArray), s)
  {
    var text := match h.lookup(s, place) case Found(text) => text case _ => "";
    if h.parse(text).Some? && h.parse(text).value.Literal? {
      assert h.Eval(h.parse(text).value, s, room) == Outcome(Number(h.parse(text).value.value), s);
    }
  }

  /** The index of an element is evaluated first, and its decimal text is the key; an element that
      is not there is the empty text, never an error. */
  lemma ElementEvaluates<S>(h: Host<S>, name: string, index: Expr, s: S, room: nat)
    ensures var (o, i) := (h.Eval(Reference(ArrayElement(name, index)), s, room), h.Eval(index, s, room));
            match i.result
            case Error(_) => o == i
            case Number(k) =>
              match h.lookup(i.store, Element(name, IntToString(k)))
              case Found(text) => TextEvaluates(h, text, i.store, room, o)
              case Absent => TextEvaluates(h, "", i.store, room, o)
              case Failed => o == Outcome(Error(FailedToAccessArray), i.store)
  {
    var target := ArrayElement(name, index);
    assert h.Eval(Reference(target), s, room) == h.Deref(target, s, room);
    var i := h.Eval(index, s, room);
    if i.result.Number? {
      var place := Element(name, IntToString(i.result.value));
      assert h.Locate(target, s, room) == At(place, i.store);
      assert h.Deref(target, s, room) == h.EvalPlace(place, i.store, room);
      hide Host.EvalPlace, TextEvaluates;
      PlaceEvaluates(h, place, i.store, room);
    } else {
      assert h.Locate(target, s, room) == NotLocated(i.result.error, i.store);
    }
  }

  // ----- Assignments -----

  /** The outcome of storing the decimal text of a value. */
  ghost predicate Stores<S>(h: Host<S>, place: Place, value: i64, s: S, o: Outcome<S>) {
    var u := h.update(s, place, IntToString(value));
    o == Outcome(if u.done then Number(value) else Error(FailedToUpdateEnvironment), u.store)
  }

  /** An assignment evaluates its right side, then the index of an element in the store which that
      leaves, and stores the value's decimal text; its own value is the one stored. */
  lemma AssignmentEvaluates<S>(h: Host<S>, target: Target, rhs: Expr, s: S, room: nat)
    ensures var (o, r) := (h.Eval(Assignment(target, rhs), s, room), h.Eval(rhs, s, room));
            match r.result
            case Error(_) => o == r
            case Number(v) => AssignsTo(h, target, v, r.store, room, o)
  {
    assert h.Eval(Assignment(target, rhs), s, room) == h.AssignValueOf(target, rhs, s, room);
    var r := h.Eval(rhs, s, room);
    if r.result.Number? {
      AssignEvaluates(h, target, r.result.value, r.store, room);
    }
  }

  ghost predicate AssignsTo<S>(h: Host<S>, target: Target, v: i64, s: S, room: nat, o: Outcome<S>) {
    match target
    case Variable(name) => Stores(h, Scalar(name), v, s, o)
    case ArrayElement(name, index) =>
      var i := h.Eval(index, s, room);
      match i.result
      case Error(_) => o == i
      case Number(k) => Stores(h, Element(name, IntToString(k)), v, i.store, o)
  }

  lemma AssignEvaluates<S>(h: Host<S>, target: Target, v: i64, s: S, room: nat)
    ensures AssignsTo(h, target, v, s, room, h.Assign(target, v, s, room))
  {
  }

  /** A compound assignment is the assignment of the operation: the element's index is evaluated
      twice. */
  lemma CompoundEvaluates<S>(h: Host<S>, op: BinaryOperator, target: Target, operand: Expr, s: S, room: nat)
    ensures h.Eval(BinaryAssignment(op, target, operand), s, room)
         == h.Eval(Assignment(target, BinaryOp(op, Reference(target), operand)), s, room)
  {
    var operation := BinaryOp(op, Reference(target), operand);
    assert h.Eval(BinaryAssignment(op, target, operand), s, room) == h.ApplyCompound(op, target, operand, s, room);
    assert h.Eval(Assignment(target, operation), s, room) == h.AssignValueOf(target, operation, s, room);
    assert h.Eval(operation, s, room) == h.ApplyBinary(op, Reference(target), operand, s, room);
  }

  /** An increment or decrement is the compound assignment of one; written after its target it has
      the value from before. */
  lemma StepEvaluates<S>(h: Host<S>, op: UnaryAssignmentOperator, target: Target, s: S, room: nat)
    ensures var sum := if op.PrefixIncrement? || op.PostfixIncrement? then Add else Subtract;
            var (o, c) := (h.Eval(UnaryAssignment(op, target), s, room),
                           h.Eval(BinaryAssignment(sum, target, Literal(1)), s, room));
            && o.store == c.store
            && if op.PrefixIncrement? || op.PrefixDecrement? || c.result.Error? then o.result == c.result
               else o.result == h.Eval(Reference(target), s, room).result
  {
    var sum := if op.PrefixIncrement? || op.PostfixIncrement? then Add else Subtract;
    assert h.Eval(UnaryAssignment(op, target), s, room) == h.ApplyStep(op, target, s, room);
    assert h.Eval(BinaryAssignment(sum, target, Literal(1)), s, room)
        == h.ApplyCompound(sum, target, Literal(1), s, room);
    var d := h.Deref(target, s, room);
    assert h.Eval(Reference(target), s, room) == d;
    if d.result.Number? {
      var x := d.result.value;
      assert h.ApplyStep(op, target, s, room) == h.StoreStep(op, target, x, d.store, room);
      assert h.Eval(Literal(1), d.store, room) == Outcome(Number(1), d.store);
      assert h.ApplyBinary(sum, Reference(target), Literal(1), s, room)
          == h.ApplyRight(sum, x, Literal(1), d.store, room)
          == Outcome(Number(Stepped(op, x).0), d.store);
      assert h.ApplyCompound(sum, target, Literal(1), s, room) == h.Assign(target, Stepped(op, x).0, d.store, room);
    } else {
      assert h.ApplyBinary(sum, Reference(target), Literal(1), s, room) == d;
    }
  }
}
