/** The arithmetic evaluator over the shell's own variable environment. */
module ShellArithmetic {
  import opened Wrappers
  import opened Numerals
  import opened Arithmetic
  import opened Environment

  /** A variable that is set is found with its text; array elements are not part of the
      environment modelled here. */
  function Look(e: Env, place: Place, elements: (Env, Place) -> Lookup): Lookup {
    match place
    case Element(_, _) => elements(e, place)
    case Scalar(name) =>
      match Visible(e.scopes, name, Anywhere)
      case None => Absent
      case Some(v) => if v.value.Some? then Found(v.value.value) else Absent
  }

  /** Assignments reach a variable wherever it is, and create it in the global scope. */
  function Put(e: Env, place: Place, text: string, elements: (Env, Place, string) -> Updated<Env>): Updated<Env> {
    match place
    case Element(_, _) => elements(e, place, text)
    case Scalar(name) =>
      var (e', r) := UpdateOrAdd(e, name, text, KEEP, Anywhere, Environment.Global);
      Updated(e', r.Ok?)
  }

  function ShellHost(parse: string -> Option<Expr>, unsetIsError: bool,
                     look: (Env, Place) -> Lookup, put: (Env, Place, string) -> Updated<Env>): Host<Env>
  {
    Host(parse,
         (e: Env, place: Place) => Look(e, place, look),
         (e: Env, place: Place, text: string) => Put(e, place, text, put),
         (e: Env) => unsetIsError)
  }

  /** The parser reads the decimal text of every 64-bit value as a numeral or a negated one. */
  ghost predicate ReadsNumerals(parse: string -> Option<Expr>) {
    forall v: i64 :: parse(IntToString(v)) == Some(NumeralExpr(v))
  }

  /** What an assignment needs: a variable that is not readonly, or a global scope to create it
      in. */
  predicate Assignable(e: Env, name: string) {
    match Find(e.scopes, name, Anywhere)
    case Some(k) => !e.scopes[k].vars[name].readonly
    case None => TopOf(e.scopes, Environment.Global).Some?
  }

  lemma PutSucceeds(e: Env, name: string, text: string, put: (Env, Place, string) -> Updated<Env>)
    ensures Put(e, Scalar(name), text, put).done <==> Assignable(e, name)
  {
  }

  /** What is put can be looked up, and no other variable looks different. */
  lemma PutThenLook(e: Env, name: string, text: string,
                    look: (Env, Place) -> Lookup, put: (Env, Place, string) -> Updated<Env>)
    requires Assignable(e, name)
    ensures var e' := Put(e, Scalar(name), text, put).store;
            && Look(e', Scalar(name), look) == Found(text)
            && forall other :: other != name ==> Look(e', Scalar(other), look) == Look(e, Scalar(other), look)
  {
    PutSucceeds(e, name, text, put);
    UpdateThenLookup(e, name, text, KEEP, Anywhere, Environment.Global);
    forall other | other != name
      ensures Look(Put(e, Scalar(name), text, put).store, Scalar(other), look) == Look(e, Scalar(other), look)
    {
      UpdateKeepsOthers(e, name, text, KEEP, Anywhere, Environment.Global, other, Anywhere);
    }
  }

  lemma FaithfulInShell(h: Host<Env>, parse: string -> Option<Expr>, unsetIsError: bool,
                        look: (Env, Place) -> Lookup, put: (Env, Place, string) -> Updated<Env>,
                        e: Env, name: string, v: i64)
    requires h == ShellHost(parse, unsetIsError, look, put) && ReadsNumerals(parse)
    ensures Faithful(h, e, name, v) <==> Assignable(e, name)
  {
    var text := IntToString(v);
    assert h.update(e, Scalar(name), text) == Put(e, Scalar(name), text, put);
    PutSucceeds(e, name, text, put);
    if Assignable(e, name) {
      PutThenLook(e, name, text, look, put);
    }
  }

  /** In the shell's environment the evaluator assigns a variable exactly when it can be assigned,
      and the variable then evaluates to the value. */
  lemma ShellAssignmentReadsBack(h: Host<Env>, parse: string -> Option<Expr>, unsetIsError: bool,
                                 look: (Env, Place) -> Lookup, put: (Env, Place, string) -> Updated<Env>,
                                 e: Env, name: string, v: i64, room: nat)
    requires h == ShellHost(parse, unsetIsError, look, put) && ReadsNumerals(parse) && room > 0
    ensures var o := h.Assign(Target.Variable(name), v, e, room);
            && (o.result == Number(v) <==> Assignable(e, name))
            && (Assignable(e, name) ==> h.Eval(Reference(Target.Variable(name)), o.store, room) == o)
  {
    FaithfulInShell(h, parse, unsetIsError, look, put, e, name, v);
    PutSucceeds(e, name, IntToString(v), put);
    assert h.Assign(Target.Variable(name), v, e, room) == h.Store(Scalar(name), v, e);
    if Assignable(e, name) {
      AssignedValueReadsBack(h, e, name, v, room);
    }
  }

  /** Likewise for increments and decrements of a variable that evaluates to a number. */
  lemma ShellStepReadsBack(h: Host<Env>, parse: string -> Option<Expr>, unsetIsError: bool,
                           look: (Env, Place) -> Lookup, put: (Env, Place, string) -> Updated<Env>,
                           e: Env, name: string, op: UnaryAssignmentOperator, room: nat)
    requires h == ShellHost(parse, unsetIsError, look, put) && ReadsNumerals(parse) && room > 0
    requires var o := h.Deref(Target.Variable(name), e, room); o.result.Number? && Assignable(o.store, name)
    ensures var before := h.Deref(Target.Variable(name), e, room).result.value;
            var after := h.Eval(UnaryAssignment(op, Target.Variable(name)), e, room);
            var stored := Wrap64(before + if op.PrefixIncrement? || op.PostfixIncrement? then 1 else -1);
            && after.result == Number(if op.PrefixIncrement? || op.PrefixDecrement? then stored else before)
            && h.Eval(Reference(Target.Variable(name)), after.store, room) == Outcome(Number(stored), after.store)
  {
    var o := h.Deref(Target.Variable(name), e, room);
    FaithfulInShell(h, parse, unsetIsError, look, put, o.store, name, Stepped(op, o.result.value).0);
    StepReadsBack(h, e, name, op, room);
  }
}
