/** Arithmetic evaluation over wrapping 64-bit integers, with variable values that are parsed
    and evaluated again under a depth budget. */
module Arithmetic {
  import opened Wrappers
  import opened Numerals

  // ----- Machine integers -----

  const MODULUS: int := 0x1_0000_0000_0000_0000

  /** The representative of `x` modulo 2^64 in the signed range. */
  function Wrap64(x: int): (r: i64) {
    (x - I64_MIN) % MODULUS + I64_MIN
  }

  ghost predicate Congruent(x: int, y: int) {
    (x - y) % MODULUS == 0
  }

  /** Division truncating toward zero, as Rust's `/` does. */
  function TruncDiv(x: int, y: int): int
    requires y != 0
  {
    if (x < 0) == (y < 0) then Abs(x) / Abs(y) else -(Abs(x) / Abs(y))
  }

  /** Remainder with the sign of the dividend, as Rust's `%` computes. */
  function TruncRem(x: int, y: int): int
    requires y != 0
  {
    if x < 0 then -(Abs(x) % Abs(y)) else Abs(x) % Abs(y)
  }

  /** Rust's `wrapping_mul`. */
  function WrappingMul(x: i64, y: i64): i64 {
    Wrap64(x * y)
  }

  function BoolToI64(b: bool): i64 {
    if b then 1 else 0
  }

  // ----- Expressions -----

  datatype UnaryOperator = UnaryPlus | UnaryMinus | BitwiseNot | LogicalNot

  datatype BinaryOperator =
    | Power | Multiply | Divide | Modulo | Comma | Add | Subtract | ShiftLeft | ShiftRight
    | LessThan | LessThanOrEqualTo | GreaterThan | GreaterThanOrEqualTo | Equals | NotEquals
    | BitwiseAnd | BitwiseXor | BitwiseOr | LogicalAnd | LogicalOr

  datatype UnaryAssignmentOperator =
    | PrefixIncrement | PrefixDecrement | PostfixIncrement | PostfixDecrement

  datatype Target =
    | Variable(name: string)
    | ArrayElement(name: string, index: Expr)
  {
    function Size(): nat {
      match this
      case Variable(_) => 1
      case ArrayElement(_, index) => 1 + index.Size()
    }
  }

  datatype Expr =
    | Literal(value: i64)
    | Reference(target: Target)
    | UnaryOp(unop: UnaryOperator, operand: Expr)
    | BinaryOp(op: BinaryOperator, left: Expr, right: Expr)
    | Conditional(condition: Expr, thenExpr: Expr, elseExpr: Expr)
    | Assignment(target: Target, rhs: Expr)
    | BinaryAssignment(op: BinaryOperator, target: Target, operand: Expr)
    | UnaryAssignment(unasop: UnaryAssignmentOperator, target: Target)
  {
    /** A termination weight in which the `Reference` that a compound assignment builds is
        lighter than the assignment it came from, and literals weigh nothing. */
    function Size(): nat {
      match this
      case Literal(_) => 0
      case Reference(target) => 1 + target.Size()
      case UnaryOp(_, operand) => 1 + operand.Size()
      case BinaryOp(_, left, right) => 1 + left.Size() + right.Size()
      case Conditional(c, t, e) => 1 + c.Size() + t.Size() + e.Size()
      case Assignment(target, rhs) => 1 + target.Size() + rhs.Size()
      case BinaryAssignment(_, target, operand) => 2 + target.Size() + operand.Size()
      case UnaryAssignment(_, target) => 1 + target.Size()
    }
  }

  datatype EvalError =
    | DivideByZero
    | NegativeExponent
    | FailedToAccessArray
    | FailedToUpdateEnvironment
    | ParseError(text: string)
    | ExpandingUnsetVariable(name: string)
    | RecursionLimitExceeded

  /** The result of an evaluation. */
  datatype Value = Number(value: i64) | Error(error: EvalError)

  datatype Outcome<+S> = Outcome(result: Value, store: S)

  /** The operators on two evaluated operands. */
  function BinaryValue(op: BinaryOperator, left: i64, right: i64): Value {
    match op
    case Power => if right >= 0 then Number(Wrap64(Pow(left, right))) else Error(NegativeExponent)
    case Multiply => Number(WrappingMul(left, right))
    case Divide => if right == 0 then Error(DivideByZero) else Number(Wrap64(TruncDiv(left, right)))
    case Modulo => if right == 0 then Error(DivideByZero) else Number(Wrap64(TruncRem(left, right)))
    case Comma => Number(right)
    case Add => Number(Wrap64(left + right))
    case Subtract => Number(Wrap64(left - right))
    case ShiftLeft => Number(Wrap64(left * Pow(2, right % 64)))
    case ShiftRight => Number(Wrap64(FloorShift(left, right % 64)))
    case LessThan => Number(BoolToI64(left < right))
    case LessThanOrEqualTo => Number(BoolToI64(left <= right))
    case GreaterThan => Number(BoolToI64(left > right))
    case GreaterThanOrEqualTo => Number(BoolToI64(left >= right))
    case Equals => Number(BoolToI64(left == right))
    case NotEquals => Number(BoolToI64(left != right))
    case BitwiseAnd | BitwiseXor | BitwiseOr => Number(Bitwise(op, left, right))
    case LogicalAnd => Number(BoolToI64(left != 0 && right != 0))
    case LogicalOr => Number(BoolToI64(left != 0 || right != 0))
  }

  predicate CombineBits(op: BinaryOperator, x: bool, y: bool) {
    if op.BitwiseAnd? then x && y else if op.BitwiseOr? then x || y else x != y
  }

  /** Combines the low `n` bits of two numbers, least significant bit first. */
  function Bits(op: BinaryOperator, x: nat, y: nat, n: nat): nat {
    if n == 0 then 0
    else (if CombineBits(op, x % 2 == 1, y % 2 == 1) then 1 else 0) + 2 * Bits(op, x / 2, y / 2, n - 1)
  }

  /** A bitwise operator on the two's complement forms. */
  function Bitwise(op: BinaryOperator, x: i64, y: i64): i64 {
    Wrap64(Bits(op, x % MODULUS, y % MODULUS, 64))
  }

  function FloorShift(x: int, n: nat): int {
    if n == 0 then x else FloorShift(x, n - 1) / 2
  }

  function UnaryValue(op: UnaryOperator, x: i64): i64 {
    var n: int := x;
    match op
    case UnaryPlus => x
    case UnaryMinus => Wrap64(-n)
    case BitwiseNot => -1 - n
    case LogicalNot => BoolToI64(x == 0)
  }

  /** The value stored and the value returned by an increment or decrement of `x`. */
  function Stepped(op: UnaryAssignmentOperator, x: i64): (i64, i64) {
    match op
    case PrefixIncrement => (Wrap64(x + 1), Wrap64(x + 1))
    case PrefixDecrement => (Wrap64(x - 1), Wrap64(x - 1))
    case PostfixIncrement => (Wrap64(x + 1), x)
    case PostfixDecrement => (Wrap64(x - 1), x)
  }

  const MAX_VARIABLE_DEREF_DEPTH: nat := 1024

  /** A variable, or an element of an array variable under its evaluated index text. */
  datatype Place = Scalar(name: string) | Element(name: string, index: string)

  datatype Lookup = Found(text: string) | Absent | Failed

  /** A target with its index evaluated, or the error met on the way. */
  datatype Located<+S> = At(place: Place, store: S) | NotLocated(error: EvalError, store: S)

  /** A store after an attempted update, and whether the update succeeded. */
  datatype Updated<+S> = Updated(store: S, done: bool)

  /** What the evaluator needs from the rest of the shell, left uninterpreted: the parser of
      arithmetic text, and a variable store of any type S. */
  datatype Host<!S> = Host(
    parse: string -> Option<Expr>,
    lookup: (S, Place) -> Lookup,
    update: (S, Place, string) -> Updated<S>,
    unsetIsError: S -> bool)
  {
    /** The meaning of an expression in a store with room for so many more dereferences of
        non-literal text before the depth limit. */
    function Eval(e: Expr, s: S, room: nat): Outcome<S>
      decreases room, e.Size(), 0
    {
      match e
      case Literal(v) => Outcome(Number(v), s)
      case Reference(target) => Deref(target, s, room)
      case UnaryOp(op, operand) => ApplyUnary(op, operand, s, room)
      case BinaryOp(op, left, right) => ApplyBinary(op, left, right, s, room)
      case Conditional(condition, thenExpr, elseExpr) => Choose(condition, thenExpr, elseExpr, s, room)
      case Assignment(target, rhs) => AssignValueOf(target, rhs, s, room)
      case UnaryAssignment(op, target) => ApplyStep(op, target, s, room)
      case BinaryAssignment(op, target, operand) => ApplyCompound(op, target, operand, s, room)
    }

    function ApplyUnary(op: UnaryOperator, operand: Expr, s: S, room: nat): Outcome<S>
      decreases room, operand.Size(), 1
    {
      var o := Eval(operand, s, room);
      if o.result.Error? then o else Outcome(Number(UnaryValue(op, o.result.value)), o.store)
    }

    function Choose(condition: Expr, thenExpr: Expr, elseExpr: Expr, s: S, room: nat): Outcome<S>
      decreases room, condition.Size() + thenExpr.Size() + elseExpr.Size(), 1
    {
      var o := Eval(condition, s, room);
      if o.result.Error? then o
      else Eval(if o.result.value != 0 then thenExpr else elseExpr, o.store, room)
    }

    function AssignValueOf(target: Target, rhs: Expr, s: S, room: nat): Outcome<S>
      decreases room, target.Size() + rhs.Size(), 2
    {
      var o := Eval(rhs, s, room);
      if o.result.Error? then o else Assign(target, o.result.value, o.store, room)
    }

    function ApplyStep(op: UnaryAssignmentOperator, target: Target, s: S, room: nat): Outcome<S>
      decreases room, target.Size(), 3
    {
      var o := Deref(target, s, room);
      if o.result.Error? then o else StoreStep(op, target, o.result.value, o.store, room)
    }

    function StoreStep(op: UnaryAssignmentOperator, target: Target, value: i64, s: S, room: nat): Outcome<S>
      decreases room, target.Size(), 2
    {
      var a := Assign(target, Stepped(op, value).0, s, room);
      if a.result.Error? then a else Outcome(Number(Stepped(op, value).1), a.store)
    }

    function ApplyCompound(op: BinaryOperator, target: Target, operand: Expr, s: S, room: nat): Outcome<S>
      decreases room, target.Size() + operand.Size() + 1, 3
    {
      var o := ApplyBinary(op, Reference(target), operand, s, room);
      if o.result.Error? then o else Assign(target, o.result.value, o.store, room)
    }

    function Locate(target: Target, s: S, room: nat): Located<S>
      decreases room, target.Size(), 0
    {
      match target
      case Variable(name) => At(Scalar(name), s)
      case ArrayElement(name, index) =>
        var o := Eval(index, s, room);
        if o.result.Error? then NotLocated(o.result.error, o.store)
        else At(Element(name, IntToString(o.result.value)), o.store)
    }

    /** The text found at a place; only an unset plain variable can be an error. */
    function Fetch(s: S, place: Place): Result<string, EvalError> {
      match lookup(s, place)
      case Found(text) => Ok(text)
      case Absent => if place.Scalar? && unsetIsError(s) then Err(ExpandingUnsetVariable(place.name)) else Ok("")
      case Failed => Err(FailedToAccessArray)
    }

    function Deref(target: Target, s: S, room: nat): Outcome<S>
      decreases room, target.Size(), 1
    {
      var located := Locate(target, s, room);
      if located.NotLocated? then Outcome(Error(located.error), located.store)
      else EvalPlace(located.place, located.store, room)
    }

    /** Parses and evaluates the text at a place. A literal costs no depth. */
    function EvalPlace(place: Place, s: S, room: nat): Outcome<S>
      decreases room, 0, 1
    {
      var text := Fetch(s, place);
      if text.Err? then Outcome(Error(text.error), s)
      else
        var parsed := parse(text.value);
        if parsed.None? then Outcome(Error(ParseError(text.value)), s)
        else if parsed.value.Literal? then Outcome(Number(parsed.value.value), s)
        else if room == 0 then Outcome(Error(RecursionLimitExceeded), s)
        else Eval(parsed.value, s, room - 1)
    }

    function ApplyBinary(op: BinaryOperator, left: Expr, right: Expr, s: S, room: nat): Outcome<S>
      decreases room, left.Size() + right.Size(), 2
    {
      var l := Eval(left, s, room);
      if l.result.Error? then l else ApplyRight(op, l.result.value, right, l.store, room)
    }

    /** A binary operator whose left operand is already a value: the logical operators look at
        it before deciding whether the right operand is evaluated at all. */
    function ApplyRight(op: BinaryOperator, left: i64, right: Expr, s: S, room: nat): Outcome<S>
      decreases room, right.Size(), 1
    {
      if op.LogicalAnd? && left == 0 then Outcome(Number(BoolToI64(false)), s)
      else if op.LogicalOr? && left != 0 then Outcome(Number(BoolToI64(true)), s)
      else
        var r := Eval(right, s, room);
        if r.result.Error? then r else Outcome(BinaryValue(op, left, r.result.value), r.store)
    }

    function Assign(target: Target, value: i64, s: S, room: nat): Outcome<S>
      decreases room, target.Size(), 1
    {
      var located := Locate(target, s, room);
      if located.NotLocated? then Outcome(Error(located.error), located.store)
      else Store(located.place, value, located.store)
    }

    function Store(place: Place, value: i64, s: S): Outcome<S> {
      var updated := update(s, place, IntToString(value));
      Outcome(if updated.done then Number(value) else Error(FailedToUpdateEnvironment), updated.store)
    }
  }

  // ----- The evaluator, changing one shell in place -----

  class Shell<S(!new)> {
    const host: Host<S>
    var store: S

    constructor (host: Host<S>, store: S)
      ensures this.host == host && this.store == store
    {
      this.host, this.store := host, store;
    }

    method Eval(e: Expr) returns (r: Value)
      modifies this
      ensures Outcome(r, store) == host.Eval(e, old(store), MAX_VARIABLE_DEREF_DEPTH)
    {
      r := EvalExprImpl(e, 0);
    }

    method EvalExprImpl(e: Expr, depth: nat) returns (r: Value)
      requires depth <= MAX_VARIABLE_DEREF_DEPTH
      modifies this
      ensures Outcome(r, store) == host.Eval(e, old(store), MAX_VARIABLE_DEREF_DEPTH - depth)
      decreases MAX_VARIABLE_DEREF_DEPTH - depth, e.Size(), 0
    {
      match e
      case Literal(v) =>
        r := Number(v);
      case Reference(target) =>
        r := DerefLvalue(target, depth);
      case UnaryOp(op, operand) =>
        r := ApplyUnaryOp(op, operand, depth);
      case BinaryOp(op, left, right) =>
        r := ApplyBinaryOp(op, left, right, depth);
      case Conditional(condition, thenExpr, elseExpr) =>
        r := EvalExprImpl(condition, depth);
        if r.Error? { return; }
        if r.value != 0 {
          r := EvalExprImpl(thenExpr, depth);
        } else {
          r := EvalExprImpl(elseExpr, depth);
        }
      case Assignment(target, rhs) =>
        r := EvalExprImpl(rhs, depth);
        if r.Error? { return; }
        r := Assign(target, r.value, depth);
      case UnaryAssignment(op, target) =>
        r := ApplyUnaryAssignmentOp(target, op, depth);
      case BinaryAssignment(op, target, operand) =>
        r := ApplyBinaryOp(op, Reference(target), operand, depth);
        if r.Error? { return; }
        r := Assign(target, r.value, depth);
    }

    method DerefLvalue(target: Target, depth: nat) returns (r: Value)
      requires depth <= MAX_VARIABLE_DEREF_DEPTH
      modifies this
      ensures Outcome(r, store) == host.Deref(target, old(store), MAX_VARIABLE_DEREF_DEPTH - depth)
      decreases MAX_VARIABLE_DEREF_DEPTH - depth, target.Size(), 1
    {
      var place;
      match target {
        case Variable(name) =>
          place := Scalar(name);
        case ArrayElement(name, index) =>
          r := EvalExprImpl(index, depth);
          if r.Error? { return; }
          place := Element(name, IntToString(r.value));
      }
      r := EvalPlace(place, depth);
    }

    method EvalPlace(place: Place, depth: nat) returns (r: Value)
      requires depth <= MAX_VARIABLE_DEREF_DEPTH
      modifies this
      ensures Outcome(r, store) == host.EvalPlace(place, old(store), MAX_VARIABLE_DEREF_DEPTH - depth)
      decreases MAX_VARIABLE_DEREF_DEPTH - depth, 0, 1
    {
      var text := "";
      match host.lookup(store, place) {
        case Found(value) =>
          text := value;
        case Absent =>
          if place.Scalar? && host.unsetIsError(store) {
            return Error(ExpandingUnsetVariable(place.name));
          }
        case Failed =>
          return Error(FailedToAccessArray);
      }

      var parsed := host.parse(text);
      if parsed.None? {
        return Error(ParseError(text));
      }
      if parsed.value.Literal? {
        r := EvalExprImpl(parsed.value, depth);
        return;
      }
      var newDepth := depth + 1;
      if newDepth > MAX_VARIABLE_DEREF_DEPTH {
        return Error(RecursionLimitExceeded);
      }
      r := EvalExprImpl(parsed.value, newDepth);
    }

    method ApplyUnaryOp(op: UnaryOperator, operand: Expr, depth: nat) returns (r: Value)
      requires depth <= MAX_VARIABLE_DEREF_DEPTH
      modifies this
      ensures Outcome(r, store) == host.ApplyUnary(op, operand, old(store), MAX_VARIABLE_DEREF_DEPTH - depth)
      decreases MAX_VARIABLE_DEREF_DEPTH - depth, operand.Size(), 1
    {
      r := EvalExprImpl(operand, depth);
      if r.Number? {
        r := Number(UnaryValue(op, r.value));
      }
    }

    method ApplyBinaryOp(op: BinaryOperator, left: Expr, right: Expr, depth: nat) returns (r: Value)
      requires depth <= MAX_VARIABLE_DEREF_DEPTH
      modifies this
      ensures Outcome(r, store) == host.ApplyBinary(op, left, right, old(store), MAX_VARIABLE_DEREF_DEPTH - depth)
      decreases MAX_VARIABLE_DEREF_DEPTH - depth, left.Size() + right.Size(), 2
    {
      ghost var whole := host.ApplyBinary(op, left, right, store, MAX_VARIABLE_DEREF_DEPTH - depth);
      r := EvalExprImpl(left, depth);
      if r.Error? {
        return;
      }
      assert whole == host.ApplyRight(op, r.value, right, store, MAX_VARIABLE_DEREF_DEPTH - depth);
      r := ApplyRight(op, r.value, right, depth);
    }

    method ApplyRight(op: BinaryOperator, left: i64, right: Expr, depth: nat) returns (r: Value)
      requires depth <= MAX_VARIABLE_DEREF_DEPTH
      modifies this
      ensures Outcome(r, store) == host.ApplyRight(op, left, right, old(store), MAX_VARIABLE_DEREF_DEPTH - depth)
      decreases MAX_VARIABLE_DEREF_DEPTH - depth, right.Size(), 1
    {
      hide BinaryValue;
      if op.LogicalAnd? && left == 0 {
        return Number(BoolToI64(false));
      }
      if op.LogicalOr? && left != 0 {
        return Number(BoolToI64(true));
      }
      r := EvalExprImpl(right, depth);
      if r.Error? { return; }
      r := ApplyToValues(op, left, r.value);
    }

    static method ApplyToValues(op: BinaryOperator, left: i64, right: i64) returns (r: Value)
      ensures r == BinaryValue(op, left, right)
    {
      if op.Power? && right >= 0 {
        var power := WrappingPow(left, right);
        r := Number(power);
      } else {
        r := BinaryValue(op, left, right);
      }
    }

    method ApplyUnaryAssignmentOp(target: Target, op: UnaryAssignmentOperator, depth: nat) returns (r: Value)
      requires depth <= MAX_VARIABLE_DEREF_DEPTH
      modifies this
      ensures Outcome(r, store) == host.ApplyStep(op, target, old(store), MAX_VARIABLE_DEREF_DEPTH - depth)
      decreases MAX_VARIABLE_DEREF_DEPTH - depth, target.Size(), 3
    {
      var value := DerefLvalue(target, depth);
      if value.Error? { return value; }
      var (stored, returned) := Stepped(op, value.value);
      r := Assign(target, stored, depth);
      if r.Number? {
        r := Number(returned);
      }
    }

    method Assign(target: Target, value: i64, depth: nat) returns (r: Value)
      requires depth <= MAX_VARIABLE_DEREF_DEPTH
      modifies this
      ensures Outcome(r, store) == host.Assign(target, value, old(store), MAX_VARIABLE_DEREF_DEPTH - depth)
      decreases MAX_VARIABLE_DEREF_DEPTH - depth, target.Size(), 1
    {
      var place;
      match target {
        case Variable(name) =>
          place := Scalar(name);
        case ArrayElement(name, index) =>
          r := EvalExprImpl(index, depth);
          if r.Error? { return; }
          place := Element(name, IntToString(r.value));
      }
      var updated := host.update(store, place, IntToString(value));
      store := updated.store;
      r := if updated.done then Number(value) else Error(FailedToUpdateEnvironment);
    }
  }

  // ----- Wrapping arithmetic -----

  lemma MultipleIsCongruent(x: int, y: int, k: int)
    requires x - y == k * MODULUS
    ensures Congruent(x, y)
  {
  }

  lemma CongruentMul(x: int, y: int, z: int)
    requires Congruent(x, y)
    ensures Congruent(x * z, y * z)
  {
    var k := (x - y) / MODULUS;
    assert x * z - y * z == (x - y) * z == (k * z) * MODULUS;
    MultipleIsCongruent(x * z, y * z, k * z);
  }

  lemma WrapCongruent(x: int)
    ensures Congruent(Wrap64(x), x) && Congruent(x, Wrap64(x))
  {
  }

  lemma CongruentWrap(x: int, y: int)
    requires Congruent(x, y)
    ensures Wrap64(x) == Wrap64(y)
  {
  }

  /** Wrapping a factor first does not change a wrapped product. */
  lemma WrapMul(x: int, z: int)
    ensures Wrap64(Wrap64(x) * z) == Wrap64(x * z)
  {
    WrapCongruent(x);
    CongruentMul(Wrap64(x), x, z);
    CongruentWrap(Wrap64(x) * z, x * z);
  }

  lemma {:induction false} PowHalves(base: int, exponent: nat)
    ensures exponent % 2 == 0 ==> Pow(base, exponent) == Pow(base * base, exponent / 2)
    ensures exponent % 2 == 1 ==> Pow(base, exponent) == base * Pow(base * base, exponent / 2)
  {
    if exponent >= 2 {
      PowHalves(base, exponent - 2);
      assert (exponent - 2) / 2 == exponent / 2 - 1;
      var rest := Pow(base * base, exponent / 2 - 1);
      var inner := Pow(base, exponent - 2);
      assert Pow(base, exponent - 1) == base * inner;
      MulAssociates(base, base, inner);
      MulAssociates(base * base, base, rest);
      MulAssociates(base, base * base, rest);
    }
  }

  lemma MulAssociates(x: int, y: int, z: int)
    ensures x * (y * z) == (x * y) * z == y * (x * z)
  {
  }

  /** Wrapping the base first does not change a wrapped power times a factor. */
  lemma {:induction false} WrapPow(base: int, exponent: nat, factor: int)
    ensures Wrap64(factor * Pow(Wrap64(base), exponent)) == Wrap64(factor * Pow(base, exponent))
    decreases exponent
  {
    if exponent > 0 {
      var w := Wrap64(base);
      assert factor * (w * Pow(w, exponent - 1)) == (factor * w) * Pow(w, exponent - 1);
      WrapPow(base, exponent - 1, factor * w);
      var p := Pow(base, exponent - 1);
      assert (factor * w) * p == w * (factor * p);
      WrapMul(base, factor * p);
      assert base * (factor * p) == factor * (base * p);
    }
  }

  /** One round of the loop keeps the wrapped product of accumulator and power. */
  lemma PowStep(r: i64, b: i64, e: nat)
    requires e > 0
    ensures Wrap64((if e % 2 == 1 then WrappingMul(r, b) else r) * Pow(WrappingMul(b, b), e / 2))
            == Wrap64(r * Pow(b, e))
  {
    PowHalves(b, e);
    var square := Pow(b * b, e / 2);
    if e % 2 == 1 {
      WrapPow(b * b, e / 2, Wrap64(r * b));
      WrapMul(r * b, square);
      MulAssociates(r, b, square);
    } else {
      WrapPow(b * b, e / 2, r);
    }
  }

  /** Square-and-multiply computes the power reduced to 64 bits, for every base and exponent. */
  method WrappingPow(base: i64, exponent: nat) returns (result: i64)
    ensures result == Wrap64(Pow(base, exponent))
  {
    result := 1;
    var b, e := base, exponent;
    while e > 0
      invariant Wrap64(result * Pow(b, e)) == Wrap64(Pow(base, exponent))
    {
      PowStep(result, b, e);
      if e % 2 == 1 {
        result := WrappingMul(result, b);
      }
      b := WrappingMul(b, b);
      e := e / 2;
    }
  }

  /** Truncated quotient and remainder, over unbounded integers. */
  lemma TruncRecombine(x: int, y: int)
    requires y != 0
    ensures TruncDiv(x, y) * y + TruncRem(x, y) == x
    ensures Abs(TruncRem(x, y)) < Abs(y)
    ensures TruncRem(x, y) == 0 || (TruncRem(x, y) < 0) == (x < 0)
  {
    var q, r := Abs(x) / Abs(y), Abs(x) % Abs(y);
    assert q * Abs(y) + r == Abs(x);
    assert (-q) * y == -(q * y);
    assert q * (-y) == -(q * y);
  }

  lemma WrappedRecombine(q: int, y: i64, r: int)
    ensures Wrap64(WrappingMul(Wrap64(q), y) + Wrap64(r)) == Wrap64(q * y + r)
  {
    var product := q * y;
    WrapMul(q, y);
    assert WrappingMul(Wrap64(q), y) == Wrap64(product);
    WrapSum(product, r);
  }

  lemma SumOfWrapped(q: int, y: i64, r: int, x: i64)
    requires q * y + r == x
    ensures Wrap64(WrappingMul(Wrap64(q), y) + Wrap64(r)) == x
  {
    WrappedRecombine(q, y, r);
  }

  lemma DivideModuloValues(left: i64, right: i64)
    requires right != 0
    ensures BinaryValue(Divide, left, right) == Number(Wrap64(TruncDiv(left, right)))
    ensures BinaryValue(Modulo, left, right) == Number(Wrap64(TruncRem(left, right)))
  {
  }

  /** Through the operators, quotient times divisor plus remainder gives back the dividend for
      every nonzero divisor, I64_MIN over -1 included; the remainder is smaller than the
      divisor and never opposite in sign to the dividend. */
  lemma DivideModuloRecombine(left: i64, right: i64, q: i64, r: i64)
    requires BinaryValue(Divide, left, right) == Number(q)
    requires BinaryValue(Modulo, left, right) == Number(r)
    ensures Wrap64(WrappingMul(q, right) + r) == left
    ensures Abs(r) < Abs(right) && (r == 0 || (r < 0) == (left < 0))
  {
    assert right != 0;
    DivideModuloValues(left, right);
    RecombineWrapped(left, right);
  }

  lemma RecombineWrapped(left: i64, right: i64)
    requires right != 0
    ensures Wrap64(WrappingMul(Wrap64(TruncDiv(left, right)), right) + Wrap64(TruncRem(left, right))) == left
    ensures Wrap64(TruncRem(left, right)) == TruncRem(left, right)
    ensures Abs(TruncRem(left, right)) < Abs(right)
    ensures TruncRem(left, right) == 0 || (TruncRem(left, right) < 0) == (left < 0)
  {
    hide TruncDiv, TruncRem;
    TruncRecombine(left, right);
    WrapSmall(TruncRem(left, right), right);
    hide Wrap64;
    SumOfWrapped(TruncDiv(left, right), right, TruncRem(left, right), left);
  }

  lemma WrapSmall(r: int, y: i64)
    requires Abs(r) < Abs(y)
    ensures Wrap64(r) == r
  {
  }

  lemma WrapSum(x: int, y: int)
    ensures Wrap64(Wrap64(x) + Wrap64(y)) == Wrap64(x + y)
  {
  }

  // ----- The depth limit is only fuel -----

  predicate Exhausted(v: Value) {
    v == Error(RecursionLimitExceeded)
  }

  /** With at least as much room below the limit, an evaluation that did not run out of depth
      has the same value or error and leaves the same store. */
  lemma {:induction false} LimitIsFuel<S>(h: Host<S>, e: Expr, s: S, room: nat, room': nat)
    requires room <= room'
    requires !Exhausted(h.Eval(e, s, room).result)
    ensures h.Eval(e, s, room') == h.Eval(e, s, room)
    decreases room, e.Size(), 0
  {
    match e
    case Literal(_) =>
    case Reference(target) => LimitIsFuelDeref(h, target, s, room, room');
    case UnaryOp(op, operand) => LimitIsFuel(h, operand, s, room, room');
    case BinaryOp(op, left, right) => LimitIsFuelBinary(h, op, left, right, s, room, room');
    case Conditional(condition, thenExpr, elseExpr) =>
      LimitIsFuelChoose(h, condition, thenExpr, elseExpr, s, room, room');
    case Assignment(target, rhs) => LimitIsFuelAssignValueOf(h, target, rhs, s, room, room');
    case UnaryAssignment(op, target) => LimitIsFuelStep(h, op, target, s, room, room');
    case BinaryAssignment(op, target, operand) => LimitIsFuelCompound(h, op, target, operand, s, room, room');
  }

  lemma {:induction false} LimitIsFuelChoose<S>(h: Host<S>, condition: Expr, thenExpr: Expr, elseExpr: Expr, s: S,
                                                room: nat, room': nat)
    requires room <= room'
    requires !Exhausted(h.Choose(condition, thenExpr, elseExpr, s, room).result)
    ensures h.Choose(condition, thenExpr, elseExpr, s, room') == h.Choose(condition, thenExpr, elseExpr, s, room)
    decreases room, condition.Size() + thenExpr.Size() + elseExpr.Size(), 1
  {
    ChooseNotExhausted(h, condition, thenExpr, elseExpr, s, room);
    LimitIsFuel(h, condition, s, room, room');
    if h.Eval(condition, s, room).result.Number? {
      var branch := if h.Eval(condition, s, room).result.value != 0 then thenExpr else elseExpr;
      LimitIsFuel(h, branch, h.Eval(condition, s, room).store, room, room');
    }
    ChooseFromParts(h, condition, thenExpr, elseExpr, s, room, room');
  }

  lemma ChooseNotExhausted<S>(h: Host<S>, condition: Expr, thenExpr: Expr, elseExpr: Expr, s: S, room: nat)
    requires !Exhausted(h.Choose(condition, thenExpr, elseExpr, s, room).result)
    ensures var c := h.Eval(condition, s, room);
            && !Exhausted(c.result)
            && (c.result.Number? ==>
                  !Exhausted(h.Eval(if c.result.value != 0 then thenExpr else elseExpr, c.store, room).result))
  {
  }

  lemma ChooseFromParts<S>(h: Host<S>, condition: Expr, thenExpr: Expr, elseExpr: Expr, s: S, room: nat, room': nat)
    requires h.Eval(condition, s, room) == h.Eval(condition, s, room')
    requires var c := h.Eval(condition, s, room);
             c.result.Number? ==>
               var branch := if c.result.value != 0 then thenExpr else elseExpr;
               h.Eval(branch, c.store, room) == h.Eval(branch, c.store, room')
    ensures h.Choose(condition, thenExpr, elseExpr, s, room) == h.Choose(condition, thenExpr, elseExpr, s, room')
  {
  }

  lemma {:induction false} LimitIsFuelAssignValueOf<S>(h: Host<S>, target: Target, rhs: Expr, s: S, room: nat,
                                                       room': nat)
    requires room <= room'
    requires !Exhausted(h.AssignValueOf(target, rhs, s, room).result)
    ensures h.AssignValueOf(target, rhs, s, room') == h.AssignValueOf(target, rhs, s, room)
    decreases room, target.Size() + rhs.Size(), 2
  {
    LimitIsFuel(h, rhs, s, room, room');
    var value, s1 := h.Eval(rhs, s, room).result, h.Eval(rhs, s, room).store;
    if value.Number? {
      assert h.AssignValueOf(target, rhs, s, room) == h.Assign(target, value.value, s1, room);
      LimitIsFuelAssign(h, target, value.value, s1, room, room');
    }
  }

  lemma {:induction false} LimitIsFuelStep<S>(h: Host<S>, op: UnaryAssignmentOperator, target: Target, s: S,
                                              room: nat, room': nat)
    requires room <= room'
    requires !Exhausted(h.ApplyStep(op, target, s, room).result)
    ensures h.ApplyStep(op, target, s, room') == h.ApplyStep(op, target, s, room)
    decreases room, target.Size(), 3
  {
    LimitIsFuelDeref(h, target, s, room, room');
    var value, s1 := h.Deref(target, s, room).result, h.Deref(target, s, room).store;
    if value.Number? {
      assert h.ApplyStep(op, target, s, room) == h.StoreStep(op, target, value.value, s1, room);
      LimitIsFuelAssign(h, target, Stepped(op, value.value).0, s1, room, room');
    }
  }

  lemma {:induction false} LimitIsFuelCompound<S>(h: Host<S>, op: BinaryOperator, target: Target, operand: Expr, s: S,
                                                  room: nat, room': nat)
    requires room <= room'
    requires !Exhausted(h.ApplyCompound(op, target, operand, s, room).result)
    ensures h.ApplyCompound(op, target, operand, s, room') == h.ApplyCompound(op, target, operand, s, room)
    decreases room, target.Size() + operand.Size() + 1, 3
  {
    LimitIsFuelBinary(h, op, Reference(target), operand, s, room, room');
    var value := h.ApplyBinary(op, Reference(target), operand, s, room).result;
    var s1 := h.ApplyBinary(op, Reference(target), operand, s, room).store;
    if value.Number? {
      assert h.ApplyCompound(op, target, operand, s, room) == h.Assign(target, value.value, s1, room);
      LimitIsFuelAssign(h, target, value.value, s1, room, room');
    }
  }

  lemma {:induction false} LimitIsFuelDeref<S>(h: Host<S>, target: Target, s: S, room: nat, room': nat)
    requires room <= room'
    requires !Exhausted(h.Deref(target, s, room).result)
    ensures h.Deref(target, s, room') == h.Deref(target, s, room)
    decreases room, target.Size(), 1
  {
    var located := h.Locate(target, s, room);
    LimitIsFuelLocate(h, target, s, room, room');
    if located.At? {
      var place, s1 := located.place, located.store;
      var text := h.Fetch(s1, place);
      if text.Ok? && h.parse(text.value).Some? && !h.parse(text.value).value.Literal? {
        LimitIsFuel(h, h.parse(text.value).value, s1, room - 1, room' - 1);
      }
    }
  }

  lemma {:induction false} LimitIsFuelLocate<S>(h: Host<S>, target: Target, s: S, room: nat, room': nat)
    requires room <= room'
    requires h.Locate(target, s, room) != NotLocated(RecursionLimitExceeded, h.Locate(target, s, room).store)
    ensures h.Locate(target, s, room') == h.Locate(target, s, room)
    decreases room, target.Size(), 0
  {
    if target.ArrayElement? {
      LimitIsFuel(h, target.index, s, room, room');
    }
  }

  lemma {:induction false} LimitIsFuelBinary<S>(h: Host<S>, op: BinaryOperator, left: Expr, right: Expr, s: S,
                                                room: nat, room': nat)
    requires room <= room'
    requires !Exhausted(h.ApplyBinary(op, left, right, s, room).result)
    ensures h.ApplyBinary(op, left, right, s, room') == h.ApplyBinary(op, left, right, s, room)
    decreases room, left.Size() + right.Size(), 2
  {
    BinaryNotExhausted(h, op, left, right, s, room);
    LimitIsFuel(h, left, s, room, room');
    if h.Eval(left, s, room).result.Number? {
      LimitIsFuelRight(h, op, h.Eval(left, s, room).result.value, right, h.Eval(left, s, room).store, room, room');
    }
    BinaryFromParts(h, op, left, right, s, room, room');
  }

  lemma BinaryNotExhausted<S>(h: Host<S>, op: BinaryOperator, left: Expr, right: Expr, s: S, room: nat)
    requires !Exhausted(h.ApplyBinary(op, left, right, s, room).result)
    ensures var l := h.Eval(left, s, room);
            && !Exhausted(l.result)
            && (l.result.Number? ==> !Exhausted(h.ApplyRight(op, l.result.value, right, l.store, room).result))
  {
  }

  lemma BinaryFromParts<S>(h: Host<S>, op: BinaryOperator, left: Expr, right: Expr, s: S, room: nat, room': nat)
    requires h.Eval(left, s, room) == h.Eval(left, s, room')
    requires var l := h.Eval(left, s, room);
             l.result.Number? ==>
               h.ApplyRight(op, l.result.value, right, l.store, room)
                 == h.ApplyRight(op, l.result.value, right, l.store, room')
    ensures h.ApplyBinary(op, left, right, s, room) == h.ApplyBinary(op, left, right, s, room')
  {
  }

  lemma {:induction false} LimitIsFuelRight<S>(h: Host<S>, op: BinaryOperator, left: i64, right: Expr, s: S,
                                               room: nat, room': nat)
    requires room <= room'
    requires !Exhausted(h.ApplyRight(op, left, right, s, room).result)
    ensures h.ApplyRight(op, left, right, s, room') == h.ApplyRight(op, left, right, s, room)
    decreases room, right.Size(), 1
  {
    if !(op.LogicalAnd? && left == 0) && !(op.LogicalOr? && left != 0) {
      LimitIsFuel(h, right, s, room, room');
    }
  }

  lemma {:induction false} LimitIsFuelAssign<S>(h: Host<S>, target: Target, value: i64, s: S,
                                                room: nat, room': nat)
    requires room <= room'
    requires !Exhausted(h.Assign(target, value, s, room).result)
    ensures h.Assign(target, value, s, room') == h.Assign(target, value, s, room)
    decreases room, target.Size(), 1
  {
    LimitIsFuelLocate(h, target, s, room, room');
  }

  // ----- Chains of variables -----

  ghost predicate Holds<S>(h: Host<S>, s: S, name: string, e: Expr) {
    h.lookup(s, Scalar(name)).Found? && h.parse(h.lookup(s, Scalar(name)).text) == Some(e)
  }

  /** The text of every name parses to a reference to the next; that of the last to `e`. */
  ghost predicate IsChain<S>(h: Host<S>, s: S, names: seq<string>, e: Expr) {
    if |names| <= 1 then |names| == 1 && Holds(h, s, names[0], e)
    else Holds(h, s, names[0], Reference(Variable(names[1]))) && IsChain(h, s, names[1..], e)
  }

  /** Each link of a chain costs one level of depth, the last one only when its text is not a
      literal; past the limit the evaluation fails and changes nothing. */
  lemma {:induction false} ChainUnwinds<S>(h: Host<S>, s: S, names: seq<string>, e: Expr, room: nat)
    requires IsChain(h, s, names, e)
    ensures var cost := |names| - (if e.Literal? then 1 else 0);
            h.Eval(Reference(Variable(names[0])), s, room)
            == if cost <= room then h.Eval(e, s, room - cost)
               else Outcome(Error(RecursionLimitExceeded), s)
    decreases |names|
  {
    ReferenceStep(h, s, names[0], if |names| > 1 then Reference(Variable(names[1])) else e, room);
    if |names| > 1 && room > 0 {
      ChainUnwinds(h, s, names[1..], e, room - 1);
    }
  }

  /** What one variable evaluates to, given what its text parses to. */
  lemma ReferenceStep<S>(h: Host<S>, s: S, name: string, e: Expr, room: nat)
    requires Holds(h, s, name, e)
    ensures h.Eval(Reference(Variable(name)), s, room)
            == if e.Literal? then Outcome(Number(e.value), s)
               else if room == 0 then Outcome(Error(RecursionLimitExceeded), s)
               else h.Eval(e, s, room - 1)
  {
    var target := Variable(name);
    assert h.Eval(Reference(target), s, room) == h.Deref(target, s, room);
    assert h.Deref(target, s, room) == h.EvalPlace(Scalar(name), s, room);
  }

  /** A chain of n variables ending in a literal evaluates to that literal exactly when
      n - 1 <= 1024; otherwise it fails with the recursion error, and nothing is changed. */
  lemma ChainEndsInLiteral<S>(h: Host<S>, s: S, names: seq<string>, v: i64)
    requires IsChain(h, s, names, Literal(v))
    ensures h.Eval(Reference(Variable(names[0])), s, MAX_VARIABLE_DEREF_DEPTH)
            == Outcome(if |names| - 1 <= 1024 then Number(v) else Error(RecursionLimitExceeded), s)
  {
    ChainUnwinds(h, s, names, Literal(v), MAX_VARIABLE_DEREF_DEPTH);
  }

  lemma {:induction false} ChainLink<S>(h: Host<S>, s: S, names: seq<string>, e: Expr, k: nat)
    requires IsChain(h, s, names, e) && k < |names|
    ensures Holds(h, s, names[k], if k + 1 < |names| then Reference(Variable(names[k + 1])) else e)
  {
    if k > 0 {
      ChainLink(h, s, names[1..], e, k - 1);
    }
  }

  /** Variables that only name each other in a ring exhaust every limit. */
  lemma {:induction false} CycleExhausts<S>(h: Host<S>, s: S, names: seq<string>, k: nat, room: nat)
    requires k < |names|
    requires IsChain(h, s, names, Reference(Variable(names[0])))
    ensures h.Eval(Reference(Variable(names[k])), s, room) == Outcome(Error(RecursionLimitExceeded), s)
    decreases room
  {
    ChainLink(h, s, names, Reference(Variable(names[0])), k);
    ReferenceStep(h, s, names[k], Reference(Variable(names[if k + 1 < |names| then k + 1 else 0])), room);
    if room > 0 {
      CycleExhausts(h, s, names, if k + 1 < |names| then k + 1 else 0, room - 1);
    }
  }

  // ----- Effects on the store -----

  predicate AssignsNothing(e: Expr) {
    match e
    case Literal(_) => true
    case Reference(Variable(_)) => true
    case Reference(ArrayElement(_, index)) => AssignsNothing(index)
    case UnaryOp(_, operand) => AssignsNothing(operand)
    case BinaryOp(_, left, right) => AssignsNothing(left) && AssignsNothing(right)
    case Conditional(c, t, f) => AssignsNothing(c) && AssignsNothing(t) && AssignsNothing(f)
    case Assignment(_, _) => false
    case BinaryAssignment(_, _, _) => false
    case UnaryAssignment(_, _) => false
  }

  /** When neither the expression nor any text the parser accepts contains an assignment,
      evaluation leaves the store as it was, whatever the outcome. */
  lemma {:induction false} WithoutAssignmentsStoreKept<S>(h: Host<S>, e: Expr, s: S, room: nat)
    requires AssignsNothing(e)
    requires forall text :: h.parse(text).Some? ==> AssignsNothing(h.parse(text).value)
    ensures h.Eval(e, s, room).store == s
    decreases room, e.Size()
  {
    match e
    case Literal(_) =>
    case Reference(target) =>
      assert e.Size() == 1 + target.Size();
      assert h.Eval(e, s, room) == h.Deref(target, s, room);
      if target.ArrayElement? {
        WithoutAssignmentsStoreKept(h, target.index, s, room);
      }
      var located := h.Locate(target, s, room);
      assert located.store == s;
      if located.At? {
        var text := h.Fetch(s, located.place);
        assert h.Deref(target, s, room) == h.EvalPlace(located.place, s, room);
        if text.Ok? && h.parse(text.value).Some? && room > 0 {
          WithoutAssignmentsStoreKept(h, h.parse(text.value).value, s, room - 1);
        }
      }
    case UnaryOp(_, operand) => WithoutAssignmentsStoreKept(h, operand, s, room);
    case BinaryOp(op, left, right) =>
      assert h.Eval(e, s, room) == h.ApplyBinary(op, left, right, s, room);
      WithoutAssignmentsStoreKept(h, left, s, room);
      WithoutAssignmentsStoreKept(h, right, s, room);
      var value := h.Eval(left, s, room).result;
      if value.Number? {
        assert h.ApplyBinary(op, left, right, s, room) == h.ApplyRight(op, value.value, right, s, room);
        assert h.ApplyRight(op, value.value, right, s, room).store == s;
      }
    case Conditional(c, t, f) =>
      WithoutAssignmentsStoreKept(h, c, s, room);
      WithoutAssignmentsStoreKept(h, t, s, room);
      WithoutAssignmentsStoreKept(h, f, s, room);
  }

  /** What the shell's own parser makes of a printed integer: a sign is an operator, and a
      magnitude of 2^63 wraps. */
  function NumeralExpr(v: i64): Expr {
    var n: int := v;
    if n >= 0 then Literal(v) else UnaryOp(UnaryMinus, Literal(Wrap64(-n)))
  }

  /** The host prints, stores and parses integers faithfully for one variable in one store. */
  ghost predicate Faithful<S>(h: Host<S>, s: S, name: string, v: i64) {
    var updated := h.update(s, Scalar(name), IntToString(v));
    && updated.done
    && h.lookup(updated.store, Scalar(name)) == Found(IntToString(v))
    && h.parse(IntToString(v)) == Some(NumeralExpr(v))
  }

  /** A variable assigned any 64-bit value, I64_MIN included, evaluates to it afterwards
      without changing the store again. */
  lemma AssignedValueReadsBack<S>(h: Host<S>, s: S, name: string, v: i64, room: nat)
    requires room > 0 && Faithful(h, s, name, v)
    ensures var o := h.Assign(Variable(name), v, s, room);
            o.result == Number(v) && h.Eval(Reference(Variable(name)), o.store, room) == o
  {
    var s1 := h.update(s, Scalar(name), IntToString(v)).store;
    assert h.Assign(Variable(name), v, s, room) == h.Store(Scalar(name), v, s);
    ReferenceStep(h, s1, name, NumeralExpr(v), room);
    NumeralValue(h, s1, v, room - 1);
  }

  lemma NumeralValue<S>(h: Host<S>, s: S, v: i64, room: nat)
    ensures h.Eval(NumeralExpr(v), s, room) == Outcome(Number(v), s)
  {
    var e := NumeralExpr(v);
    if e.UnaryOp? {
      assert h.Eval(e, s, room) == h.ApplyUnary(e.unop, e.operand, s, room);
      assert h.Eval(e.operand, s, room) == Outcome(Number(e.operand.value), s);
    }
  }

  /** `x++` on a variable that evaluates to `v` returns `v`, and `x` then evaluates to `v + 1`
      wrapped; `++x` returns what is stored. Likewise for the decrements. */
  lemma StepReadsBack<S>(h: Host<S>, s: S, name: string, op: UnaryAssignmentOperator, room: nat)
    requires room > 0 && h.Deref(Variable(name), s, room).result.Number?
    requires var o := h.Deref(Variable(name), s, room);
             Faithful(h, o.store, name, Stepped(op, o.result.value).0)
    ensures var before := h.Deref(Variable(name), s, room);
            var after := h.Eval(UnaryAssignment(op, Variable(name)), s, room);
            var stored := Wrap64(before.result.value + (if op.PrefixIncrement? || op.PostfixIncrement? then 1 else -1));
            && after.result == Number(if op.PrefixIncrement? || op.PrefixDecrement? then stored
               else before.result.value)
            && h.Eval(Reference(Variable(name)), after.store, room) == Outcome(Number(stored), after.store)
  {
    var target := Variable(name);
    var value, s1 := h.Deref(target, s, room).result.value, h.Deref(target, s, room).store;
    AssignedValueReadsBack(h, s1, name, Stepped(op, value).0, room);
    assert h.Eval(UnaryAssignment(op, target), s, room) == h.ApplyStep(op, target, s, room);
    assert h.ApplyStep(op, target, s, room) == h.StoreStep(op, target, value, s1, room);
  }
}
