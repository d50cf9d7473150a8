/** The `getopts` builtin over the shell's own variable environment, where a name can be bound in
    several scopes at once. */
module ShellGetOpts {
  import opened Wrappers
  import opened Numerals
  import opened GetOpts
  import opened Environment

  function TextOf(name: Name): string {
    match name
    case OPTIND => "OPTIND"
    case OPTARG => "OPTARG"
    case NEXT_CHAR => "__GETOPTS_NEXT_CHAR"
    case LAST_OPTIND => "__GETOPTS_LAST_OPTIND"
    case Other(text) => text
  }

  lemma TextOfName(s: string)
    ensures TextOf(NameOf(s)) == s
    ensures NameOf(TextOf(OPTIND)) == OPTIND && NameOf(TextOf(OPTARG)) == OPTARG
    ensures NameOf(TextOf(NEXT_CHAR)) == NEXT_CHAR && NameOf(TextOf(LAST_OPTIND)) == LAST_OPTIND
  {
  }

  function Look(e: Env, s: string): Option<string> {
    match Visible(e.scopes, s, Anywhere)
    case Some(v) => v.value
    case None => None
  }

  /** Assignments reach a variable wherever it is, and create it in the global scope. */
  function Assign(e: Env, s: string, value: string): Result<Env, ()> {
    var (e', r) := UpdateOrAdd(e, s, value, KEEP, Anywhere, Environment.Global);
    if r.Ok? then Ok(e') else Err(())
  }

  function Remove(e: Env, s: string): Result<Env, ()> {
    var (e', r) := Unset(e, s);
    if r.Ok? then Ok(e') else Err(())
  }

  const SHELL: Access<Env> := Access(
    (e: Env, name: Name) => Look(e, TextOf(name)),
    (e: Env, name: Name, value: string) => Assign(e, TextOf(name), value),
    (e: Env, name: Name) => Remove(e, TextOf(name)))

  predicate IsReadonly(e: Env, s: string) {
    match Visible(e.scopes, s, Anywhere)
    case Some(v) => v.readonly
    case None => false
  }

  /** An environment with a global scope, of which these flat variables are all that shows. */
  ghost predicate Shows(e: Env, vars: Vars) {
    && TopOf(e.scopes, Environment.Global).Some?
    && forall s: string :: ShowsName(e, vars, s)
  }

  ghost predicate ShowsName(e: Env, vars: Vars, s: string) {
    Look(e, s) == vars.Str(NameOf(s)) && (IsReadonly(e, s) <==> NameOf(s) in vars.readonly)
  }

  // ----- What one assignment or unset shows -----

  /** Nothing but the bindings of one name is different. */
  ghost predicate OnlyChanges(before: seq<Frame>, after: seq<Frame>, s: string) {
    && |before| == |after|
    && forall k :: 0 <= k < |before| ==> SameBut(before[k], after[k], s)
  }

  ghost predicate SameBut(before: Frame, after: Frame, s: string) {
    && before.scope == after.scope
    && forall other :: other != s ==> Entry(before.vars, other) == Entry(after.vars, other)
  }

  lemma {:induction false} GlobalKept(before: seq<Frame>, after: seq<Frame>, s: string, n: nat)
    requires OnlyChanges(before, after, s) && n <= |before|
    ensures TopBelow(before, Environment.Global, n) == TopBelow(after, Environment.Global, n)
  {
    if n > 0 {
      assert SameBut(before[n - 1], after[n - 1], s);
      GlobalKept(before, after, s, n - 1);
    }
  }

  lemma GlobalStays(before: seq<Frame>, after: seq<Frame>, s: string)
    requires OnlyChanges(before, after, s)
    ensures TopOf(after, Environment.Global) == TopOf(before, Environment.Global)
  {
    GlobalKept(before, after, s, |before|);
  }

  lemma VisibleKept(before: seq<Frame>, after: seq<Frame>, s: string, other: string)
    requires OnlyChanges(before, after, s) && other != s
    ensures Visible(after, other, Anywhere) == Visible(before, other, Anywhere)
    ensures Find(after, other, Anywhere) == Find(before, other, Anywhere)
  {
    forall k | 0 <= k < |before|
      ensures before[k].scope == after[k].scope && Entry(before[k].vars, other) == Entry(after[k].vars, other)
      ensures Binds(before, other, Anywhere, k) == Binds(after, other, Anywhere, k)
    {
      assert SameBut(before[k], after[k], s);
    }
    OthersUnchanged(before, after, s, other, Anywhere);
    var r := Find(before, other, Anywhere);
    if r.Some? {
      FindIs(after, other, Anywhere, r.value);
    }
  }

  lemma SetChanges(scopes: seq<Frame>, k: nat, s: string, v: Variable)
    requires k < |scopes|
    ensures OnlyChanges(scopes, SetVar(scopes, k, s, v), s)
  {
  }

  lemma RemoveChanges(scopes: seq<Frame>, k: nat, s: string)
    requires k < |scopes|
    ensures OnlyChanges(scopes, RemoveVar(scopes, k, s), s)
  {
  }

  lemma AssignChanges(e: Env, s: string, value: string)
    requires Assign(e, s, value).Ok?
    ensures OnlyChanges(e.scopes, Assign(e, s, value).value.scopes, s)
  {
    hide OnlyChanges, SetVar;
    var found := Find(e.scopes, s, Anywhere);
    var k := if found.Some? then found.value else TopOf(e.scopes, Environment.Global).value;
    forall v ensures OnlyChanges(e.scopes, SetVar(e.scopes, k, s, v), s) {
      SetChanges(e.scopes, k, s, v);
    }
  }

  lemma UnsetChanges(e: Env, s: string)
    requires Remove(e, s).Ok?
    ensures OnlyChanges(e.scopes, Remove(e, s).value.scopes, s)
  {
    hide OnlyChanges, SetVar, RemoveVar;
    var found := Find(e.scopes, s, Anywhere);
    if found.None? {
      assert OnlyChanges(e.scopes, e.scopes, s) by { NothingChanges(e.scopes, s); }
    } else {
      SetChanges(e.scopes, found.value, s, PLACEHOLDER);
      RemoveChanges(e.scopes, found.value, s);
    }
  }

  lemma NothingChanges(scopes: seq<Frame>, s: string)
    ensures OnlyChanges(scopes, scopes, s)
  {
  }

  /** The topmost binding, in terms of the frames' own variables. */
  lemma TopBinding(scopes: seq<Frame>, s: string)
    ensures match Find(scopes, s, Anywhere)
            case None => forall j :: 0 <= j < |scopes| ==> s !in scopes[j].vars
            case Some(k) => s in scopes[k].vars && forall j :: k < j < |scopes| ==> s !in scopes[j].vars
  {
    var found := Find(scopes, s, Anywhere);
    forall j | (if found.Some? then found.value else -1) < j < |scopes| ensures s !in scopes[j].vars {
      assert !Binds(scopes, s, Anywhere, j);
    }
  }

  lemma IsTopBinding(scopes: seq<Frame>, s: string, k: nat)
    requires k < |scopes| && s in scopes[k].vars && forall j :: k < j < |scopes| ==> s !in scopes[j].vars
    ensures Find(scopes, s, Anywhere) == Some(k)
  {
    FindIs(scopes, s, Anywhere, k);
  }

  // ----- What unsetting brings to light -----

  predicate Blank(v: Variable) { v.value.None? && !v.readonly }

  /** The bindings that successive unsets bring to light, from the one in frame k downwards. A
      binding in the innermost function's own scope leaves a placeholder behind, so that nothing
      below it shows through. */
  function ExposedBelow(scopes: seq<Frame>, s: string, k: nat): seq<Variable>
    requires k < |scopes|
    decreases k
  {
    if IsCurrentLocal(scopes, k) then []
    else
      match FindBelow(scopes, s, Anywhere, k)
      case None => []
      case Some(j) => [scopes[j].vars[s]] + ExposedBelow(scopes, s, j)
  }

  function Exposed(e: Env, s: string): seq<Variable> {
    match Find(e.scopes, s, Anywhere)
    case None => []
    case Some(k) => ExposedBelow(e.scopes, s, k)
  }

  function Rest(x: seq<Variable>): seq<Variable> { if x == [] then [] else x[1..] }

  predicate RevealsNothing(e: Env, s: string) {
    Exposed(e, s) == [] || Blank(Exposed(e, s)[0])
  }

  lemma {:induction false} FindBelowSame(before: seq<Frame>, after: seq<Frame>, s: string, n: nat)
    requires n <= |before| == |after|
    requires forall j :: 0 <= j < n ==> Entry(before[j].vars, s) == Entry(after[j].vars, s)
    ensures FindBelow(after, s, Anywhere, n) == FindBelow(before, s, Anywhere, n)
  {
    if n > 0 {
      FindBelowSame(before, after, s, n - 1);
      assert Entry(before[n - 1].vars, s) == Entry(after[n - 1].vars, s);
    }
  }

  lemma {:induction false} ExposedSame(before: seq<Frame>, after: seq<Frame>, s: string, k: nat)
    requires k < |before| == |after|
    requires forall j :: 0 <= j < |before| ==> before[j].scope == after[j].scope
    requires forall j :: 0 <= j < k ==> Entry(before[j].vars, s) == Entry(after[j].vars, s)
    ensures ExposedBelow(after, s, k) == ExposedBelow(before, s, k)
    decreases k
  {
    FindBelowSame(before, after, s, k);
    var below := FindBelow(before, s, Anywhere, k);
    if !IsCurrentLocal(before, k) && below.Some? {
      ExposedSame(before, after, s, below.value);
      assert Entry(before[below.value].vars, s) == Entry(after[below.value].vars, s);
    }
  }

  lemma OthersExposed(e: Env, e': Env, s: string, other: string)
    requires OnlyChanges(e.scopes, e'.scopes, s) && other != s
    ensures Exposed(e', other) == Exposed(e, other)
    ensures Look(e', other) == Look(e, other) && IsReadonly(e', other) == IsReadonly(e, other)
  {
    VisibleKept(e.scopes, e'.scopes, s, other);
    forall k | 0 <= k < |e.scopes|
      ensures e.scopes[k].scope == e'.scopes[k].scope
      ensures Entry(e.scopes[k].vars, other) == Entry(e'.scopes[k].vars, other)
    {
      assert SameBut(e.scopes[k], e'.scopes[k], s);
    }
    var found := Find(e.scopes, other, Anywhere);
    if found.Some? {
      ExposedSame(e.scopes, e'.scopes, other, found.value);
    }
  }

  /** An assignment succeeds unless the variable is readonly, and shows. */
  lemma AssignLooks(e: Env, s: string, value: string)
    requires TopOf(e.scopes, Environment.Global).Some?
    ensures var r := Assign(e, s, value);
            && (r.Ok? <==> !IsReadonly(e, s))
            && (r.Ok? ==> Look(r.value, s) == Some(value) && !IsReadonly(r.value, s))
  {
    if Assign(e, s, value).Ok? {
      UpdateThenLookup(e, s, value, KEEP, Anywhere, Environment.Global);
    }
  }

  lemma SetExposed(e: Env, e': Env, s: string, k: nat, v: Variable)
    requires k < |e.scopes| && e'.scopes == SetVar(e.scopes, k, s, v)
    requires match Find(e.scopes, s, Anywhere) case Some(j) => j == k case None => !e.scopes[k].scope.Local?
    ensures Exposed(e', s) == Exposed(e, s)
    ensures Visible(e'.scopes, s, Anywhere) == Some(v)
  {
    TopBinding(e.scopes, s);
    IsTopBinding(e'.scopes, s, k);
    assert forall j :: 0 <= j < |e.scopes| && j != k ==> e'.scopes[j] == e.scopes[j];
    ExposedSame(e.scopes, e'.scopes, s, k);
  }

  lemma AssignExposed(e: Env, s: string, value: string)
    requires Assign(e, s, value).Ok?
    ensures Exposed(Assign(e, s, value).value, s) == Exposed(e, s)
  {
    hide Exposed;
    var e' := Assign(e, s, value).value;
    var found := Find(e.scopes, s, Anywhere);
    var k := if found.Some? then found.value else TopOf(e.scopes, Environment.Global).value;
    forall v | e'.scopes == SetVar(e.scopes, k, s, v) ensures Exposed(e', s) == Exposed(e, s) {
      SetExposed(e, e', s, k, v);
    }
  }

  /** Taking the topmost binding away brings up the next one. */
  lemma RemovedTop(e: Env, e': Env, s: string, k: nat)
    requires Find(e.scopes, s, Anywhere) == Some(k) && !IsCurrentLocal(e.scopes, k)
    requires e'.scopes == RemoveVar(e.scopes, k, s)
    ensures Exposed(e', s) == Rest(Exposed(e, s))
    ensures Visible(e'.scopes, s, Anywhere) == if Exposed(e, s) == [] then None else Some(Exposed(e, s)[0])
  {
    TopBinding(e.scopes, s);
    TopBinding(e'.scopes, s);
    assert forall j :: 0 <= j < |e.scopes| && j != k ==> e'.scopes[j] == e.scopes[j];
    var below := FindBelow(e.scopes, s, Anywhere, k);
    if below.Some? {
      forall j | below.value < j < k ensures s !in e.scopes[j].vars {
        assert !Binds(e.scopes, s, Anywhere, j);
      }
      IsTopBinding(e'.scopes, s, below.value);
      ExposedSame(e.scopes, e'.scopes, s, below.value);
    } else {
      forall j | 0 <= j < k ensures s !in e.scopes[j].vars {
        assert !Binds(e.scopes, s, Anywhere, j);
      }
    }
  }

  /** An unset succeeds unless the variable is readonly; what shows then is what it exposes. */
  lemma UnsetLooks(e: Env, s: string)
    ensures Remove(e, s).Ok? <==> !IsReadonly(e, s)
    ensures var (r, x) := (Remove(e, s), Exposed(e, s));
            r.Ok? ==>
              && Exposed(r.value, s) == Rest(x)
              && Look(r.value, s) == (if x == [] then None else x[0].value)
              && (IsReadonly(r.value, s) <==> x != [] && x[0].readonly)
  {
    hide ExposedBelow;
    var found := Find(e.scopes, s, Anywhere);
    if found.Some? && !IsReadonly(e, s) {
      if IsCurrentLocal(e.scopes, found.value) {
        OwnExposed(e, s, found.value);
        SetExposed(e, Remove(e, s).value, s, found.value, PLACEHOLDER);
      } else {
        RemovedTop(e, Remove(e, s).value, s, found.value);
      }
    }
  }

  lemma OwnExposed(e: Env, s: string, k: nat)
    requires Find(e.scopes, s, Anywhere) == Some(k) && IsCurrentLocal(e.scopes, k)
    ensures Exposed(e, s) == []
  {
  }

  lemma NamesDiffer(s: string, other: string)
    requires s != other
    ensures NameOf(s) != NameOf(other)
  {
    TextOfName(s);
    TextOfName(other);
  }

  lemma OthersShow(e: Env, vars: Vars, e': Env, vars': Vars, s: string)
    requires Shows(e, vars) && OnlyChanges(e.scopes, e'.scopes, s) && vars'.readonly == vars.readonly
    requires forall name :: name != NameOf(s) ==> vars'.Str(name) == vars.Str(name)
    ensures Shows(e', vars') <==> ShowsName(e', vars', s)
  {
    GlobalKept(e.scopes, e'.scopes, s, |e.scopes|);
    forall other | other != s ensures ShowsName(e', vars', other) {
      NamesDiffer(s, other);
      VisibleKept(e.scopes, e'.scopes, s, other);
      assert ShowsName(e, vars, other);
    }
  }

  /** Assigning in the environment is assigning a flat variable. */
  lemma AssignShows(e: Env, vars: Vars, s: string, value: string)
    requires Shows(e, vars)
    ensures var (r, flat) := (Assign(e, s, value), vars.Set(NameOf(s), value));
            r.Ok? == flat.Ok? && (r.Ok? ==> Shows(r.value, flat.value))
  {
    hide Assign, Look, IsReadonly, OnlyChanges;
    AssignLooks(e, s, value);
    assert ShowsName(e, vars, s);
    if Assign(e, s, value).Ok? {
      AssignChanges(e, s, value);
      OthersShow(e, vars, Assign(e, s, value).value, vars.Set(NameOf(s), value).value, s);
    }
  }

  /** Unsetting in the environment is unsetting a flat variable exactly when nothing is revealed. */
  lemma UnsetShows(e: Env, vars: Vars, s: string)
    requires Shows(e, vars)
    ensures var (r, flat) := (Remove(e, s), vars.Unset(NameOf(s)));
            r.Ok? == flat.Ok? && (r.Ok? ==> (Shows(r.value, flat.value) <==> RevealsNothing(e, s)))
  {
    hide Remove, Look, IsReadonly, OnlyChanges, Exposed;
    UnsetLooks(e, s);
    assert ShowsName(e, vars, s);
    if Remove(e, s).Ok? {
      UnsetChanges(e, s);
      OthersShow(e, vars, Remove(e, s).value, vars.Unset(NameOf(s)).value, s);
    }
  }

  // ----- The call in the environment is the flat call -----

  const ARG := TextOf(OPTARG)
  const NEXT := TextOf(NEXT_CHAR)

  /** However often the name is unset, nothing is revealed. */
  ghost predicate Clean(e: Env, s: string) {
    BlankOnly(Exposed(e, s))
  }

  ghost predicate BlankOnly(x: seq<Variable>) {
    forall i :: 0 <= i < |x| ==> Blank(x[i])
  }

  /** The environment shows the flat variables, and the hidden character index is bound nowhere
      else. */
  ghost predicate Simulates(e: Env, vars: Vars) {
    Shows(e, vars) && Clean(e, NEXT)
  }

  ghost predicate SameOutcome(r: Result<Env, ()>, flat: Result<Vars, ()>, x: seq<Variable>) {
    r.Ok? == flat.Ok? && (r.Ok? ==> Simulates(r.value, flat.value) && Exposed(r.value, ARG) == x)
  }

  lemma LookSimulated(e: Env, vars: Vars, s: string)
    requires Simulates(e, vars)
    ensures Look(e, s) == vars.Str(NameOf(s)) && (IsReadonly(e, s) <==> NameOf(s) in vars.readonly)
  {
    assert ShowsName(e, vars, s);
  }

  lemma AssignExposes(e: Env, s: string, value: string, other: string)
    requires Assign(e, s, value).Ok?
    ensures Exposed(Assign(e, s, value).value, other) == Exposed(e, other)
  {
    hide Assign, OnlyChanges, Exposed;
    AssignChanges(e, s, value);
    if other == s {
      AssignExposed(e, s, value);
    } else {
      OthersExposed(e, Assign(e, s, value).value, s, other);
    }
  }

  lemma AssignSimulated(e: Env, vars: Vars, s: string, value: string)
    requires Simulates(e, vars)
    ensures SameOutcome(Assign(e, s, value), vars.Set(NameOf(s), value), Exposed(e, ARG))
  {
    hide Shows, Assign, Exposed;
    AssignShows(e, vars, s, value);
    if Assign(e, s, value).Ok? {
      AssignExposes(e, s, value, ARG);
      AssignExposes(e, s, value, NEXT);
    }
  }

  lemma RestBlank(x: seq<Variable>)
    requires BlankOnly(x)
    ensures BlankOnly(Rest(x))
  {
  }

  lemma UnsetSimulated(e: Env, vars: Vars, s: string)
    requires Simulates(e, vars) && (s == NEXT || (s == ARG && RevealsNothing(e, ARG)))
    ensures SameOutcome(Remove(e, s), vars.Unset(NameOf(s)),
                        if s == ARG then Rest(Exposed(e, ARG)) else Exposed(e, ARG))
  {
    hide Shows, Remove, OnlyChanges, Exposed, BlankOnly;
    assert Clean(e, NEXT) ==> RevealsNothing(e, NEXT) by { BlankReveals(e, NEXT); }
    UnsetShows(e, vars, s);
    if Remove(e, s).Ok? {
      UnsetChanges(e, s);
      UnsetLooks(e, s);
      OthersExposed(e, Remove(e, s).value, s, if s == ARG then NEXT else ARG);
      RestBlank(Exposed(e, NEXT));
    }
  }

  lemma BlankReveals(e: Env, s: string)
    ensures Clean(e, s) ==> RevealsNothing(e, s)
  {
  }

  lemma NextSimulated(spec: OptionSpec, args: seq<string>, e: Env, vars: Vars, nextIndex: nat)
    requires Simulates(e, vars) && nextIndex >= 1
    ensures var (r, flat) := (SHELL.ParseNext(spec, args, e, nextIndex), FLAT.ParseNext(spec, args, vars, nextIndex));
            r.1 == flat.1 && Simulates(r.0, flat.0) && Exposed(r.0, ARG) == Exposed(e, ARG)
  {
    hide Simulates, Assign, Remove, Look, Exposed, NatToString, ParseInt, ResolveArgument;
    TextOfName(NEXT);
    LookSimulated(e, vars, NEXT);
    UnsetSimulated(e, vars, NEXT);
    forall value ensures SameOutcome(Assign(e, NEXT, value), vars.Set(NEXT_CHAR, value), Exposed(e, ARG)) {
      AssignSimulated(e, vars, NEXT, value);
    }
  }

  lemma UpdateSimulated(e: Env, vars: Vars, s: string, result: GetOptsResult)
    requires Simulates(e, vars) && (result.optarg.None? ==> RevealsNothing(e, ARG))
    ensures var r := SHELL.UpdateVariables(e, NameOf(s), result);
            var flat := FLAT.UpdateVariables(vars, NameOf(s), result);
            && r.1 == flat.1 && Simulates(r.0, flat.0)
            && (Exposed(r.0, ARG) == Exposed(e, ARG)
                || (result.optarg.None? && Exposed(r.0, ARG) == Rest(Exposed(e, ARG))))
            && (r.1.Exited? ==>
                  Exposed(r.0, ARG) == if result.optarg.None? then Rest(Exposed(e, ARG)) else Exposed(e, ARG))
  {
    hide Simulates, Assign, Remove, Exposed, RevealsNothing, NatToString, NameOf;
    TextOfName(s);
    var optind := NatToString(result.optind);
    var first := Assign(e, s, result.value);
    AssignSimulated(e, vars, s, result.value);
    if first.Ok? {
      var (e1, v1) := (first.value, vars.Set(NameOf(s), result.value).value);
      TextOfName(ARG);
      if result.optarg.Some? {
        AssignSimulated(e1, v1, ARG, result.optarg.value);
      } else {
        SameReveals(e, e1);
        UnsetSimulated(e1, v1, ARG);
      }
      var second := if result.optarg.Some? then Assign(e1, ARG, result.optarg.value) else Remove(e1, ARG);
      var flat := if result.optarg.Some? then v1.Set(OPTARG, result.optarg.value) else v1.Unset(OPTARG);
      if second.Ok? {
        CountersSimulated(second.value, flat.value, optind);
      }
    }
  }

  lemma SameReveals(e: Env, e': Env)
    requires Exposed(e', ARG) == Exposed(e, ARG)
    ensures RevealsNothing(e', ARG) == RevealsNothing(e, ARG)
  {
  }

  lemma CountersSimulated(e: Env, vars: Vars, optind: string)
    requires Simulates(e, vars)
    ensures var (r, flat, x) := (Assign(e, TextOf(OPTIND), optind), vars.Set(OPTIND, optind), Exposed(e, ARG));
            && SameOutcome(r, flat, x)
            && (r.Ok? ==>
                  SameOutcome(Assign(r.value, TextOf(LAST_OPTIND), optind), flat.value.Set(LAST_OPTIND, optind), x))
  {
    hide Simulates, Assign, Exposed;
    TextOfName(TextOf(OPTIND));
    AssignSimulated(e, vars, TextOf(OPTIND), optind);
    var r := Assign(e, TextOf(OPTIND), optind);
    if r.Ok? {
      AssignSimulated(r.value, vars.Set(OPTIND, optind).value, TextOf(LAST_OPTIND), optind);
    }
  }

  lemma NextKeepsReadonly(spec: OptionSpec, args: seq<string>, vars: Vars, nextIndex: nat)
    requires nextIndex >= 1
    ensures FLAT.ParseNext(spec, args, vars, nextIndex).0.readonly == vars.readonly
  {
    hide NatToString, ParseInt, ResolveArgument;
  }

  /** A call up to its updates: refused, or the same result with the same variables to update. */
  lemma CallParts(spec: OptionSpec, args: seq<string>, name: string, e: Env, vars: Vars)
      returns (parsed: Env, flat: Vars, result: Option<GetOptsResult>)
    requires Simulates(e, vars)
    ensures Simulates(parsed, flat) && Exposed(parsed, ARG) == Exposed(e, ARG) && flat.readonly == vars.readonly
    ensures match result
            case Some(r) =>
              && SHELL.Call(spec, args, name, e) == SHELL.UpdateVariables(parsed, NameOf(name), r)
              && FLAT.Call(spec, args, name, vars) == FLAT.UpdateVariables(flat, NameOf(name), r)
            case None =>
              && SHELL.Call(spec, args, name, e).0 == parsed && FLAT.Call(spec, args, name, vars).0 == flat
              && SHELL.Call(spec, args, name, e).1 == FLAT.Call(spec, args, name, vars).1
                 == if ValidVariableName(name) then Refused else Exited(1)
  {
    hide Simulates, Assign, Remove, Look, Exposed, NameOf, SHELL.ParseNext, SHELL.UpdateVariables, ParseInt;
    TextOfName(name);
    LookSimulated(e, vars, TextOf(OPTIND));
    LookSimulated(e, vars, TextOf(LAST_OPTIND));
    UnsetSimulated(e, vars, NEXT);
    var optind := OptIndOf(Look(e, TextOf(OPTIND)));
    var resumed := LastOptIndOf(Look(e, TextOf(LAST_OPTIND))) == Some(optind);
    var cleared := if resumed then Ok(e) else Remove(e, NEXT);
    var flatCleared := if resumed then Ok(vars) else vars.Unset(NEXT_CHAR);
    parsed, flat, result := e, vars, None;
    if ValidVariableName(name) && cleared.Ok? {
      NextSimulated(spec, args, cleared.value, flatCleared.value, Max(optind, 1));
      NextKeepsReadonly(spec, args, flatCleared.value, Max(optind, 1));
      parsed, result := SHELL.ParseNext(spec, args, cleared.value, Max(optind, 1)).0,
        SHELL.ParseNext(spec, args, cleared.value, Max(optind, 1)).1;
      flat := FLAT.ParseNext(spec, args, flatCleared.value, Max(optind, 1)).0;
    }
  }

  /** One call in the environment has the outcome of the call on the flat variables. */
  lemma CallSimulated(spec: OptionSpec, args: seq<string>, name: string, e: Env, vars: Vars)
    requires Simulates(e, vars) && Clean(e, ARG)
    ensures var (r, flat) := (SHELL.Call(spec, args, name, e), FLAT.Call(spec, args, name, vars));
            && r.1 == flat.1 && Simulates(r.0, flat.0) && Clean(r.0, ARG)
            && SHELL.Observe(r.0, NameOf(name), r.1) == FLAT.Observe(flat.0, NameOf(name), flat.1)
  {
    hide Simulates, Exposed, BlankOnly, SHELL.Call, SHELL.UpdateVariables, SHELL.Observe, NameOf;
    var parsed, flatParsed, result := CallParts(spec, args, name, e, vars);
    if result.Some? {
      BlankReveals(parsed, ARG);
      RestBlank(Exposed(e, ARG));
      UpdateSimulated(parsed, flatParsed, name, result.value);
    }
    var (r, flat) := (SHELL.Call(spec, args, name, e), FLAT.Call(spec, args, name, vars));
    ObserveSimulated(name, r.0, flat.0, r.1);
  }

  lemma ObserveSimulated(name: string, e: Env, vars: Vars, c: Completion)
    requires Simulates(e, vars)
    ensures SHELL.Observe(e, NameOf(name), c) == FLAT.Observe(vars, NameOf(name), c)
  {
    TextOfName(name);
    LookSimulated(e, vars, name);
    LookSimulated(e, vars, ARG);
    LookSimulated(e, vars, TextOf(OPTIND));
  }

  /** So are whole runs, readonly variables and all. */
  lemma {:induction false} LoopSimulated(spec: OptionSpec, args: seq<string>, name: string, e: Env, vars: Vars,
                                         calls: nat)
    requires Simulates(e, vars) && Clean(e, ARG)
    ensures SHELL.Loop(spec, args, name, e, calls) == FLAT.Loop(spec, args, name, vars, calls)
    decreases calls
  {
    hide Simulates, Clean, SHELL.Call, SHELL.Observe;
    CallSimulated(spec, args, name, e, vars);
    var (r, flat) := (SHELL.Call(spec, args, name, e), FLAT.Call(spec, args, name, vars));
    if r.1 == Exited(0) && calls > 0 {
      LoopSimulated(spec, args, name, r.0, flat.0, calls - 1);
    }
  }

  ghost function Names(scopes: seq<Frame>): set<string> {
    if scopes == [] then {} else Names(scopes[..|scopes| - 1]) + scopes[|scopes| - 1].vars.Keys
  }

  lemma {:induction false} AllNamed(scopes: seq<Frame>, s: string)
    ensures (exists k :: 0 <= k < |scopes| && s in scopes[k].vars) ==> s in Names(scopes)
  {
    if scopes != [] {
      var rest := scopes[..|scopes| - 1];
      AllNamed(rest, s);
      forall k | 0 <= k < |scopes| && s in scopes[k].vars ensures s in Names(scopes) {
        assert k < |rest| ==> rest[k] == scopes[k];
      }
    }
  }

  /** The flat variables an environment shows. */
  ghost function Seen(e: Env): Vars {
    var bound := set s | s in Names(e.scopes) :: NameOf(s);
    Vars(map name | name in bound && Look(e, TextOf(name)).Some? :: Look(e, TextOf(name)).value,
         set name | name in bound && IsReadonly(e, TextOf(name)))
  }

  lemma SeenShows(e: Env)
    requires TopOf(e.scopes, Environment.Global).Some?
    ensures Shows(e, Seen(e))
  {
    forall s: string ensures ShowsName(e, Seen(e), s) {
      TextOfName(s);
      AllNamed(e.scopes, s);
      var found := Find(e.scopes, s, Anywhere);
      assert found.Some? ==> s in e.scopes[found.value].vars;
      assert s in Names(e.scopes) <==> NameOf(s) in set t | t in Names(e.scopes) :: NameOf(t) by {
        forall t | NameOf(t) == NameOf(s) ensures t == s { TextOfName(t); }
      }
    }
  }

  /** Nothing that a call writes is readonly, and there is a global scope to write to. */
  predicate UsableShell(e: Env, name: string) {
    && ValidVariableName(name) && NameOf(name).Other?
    && Writable(e, name) && !IsReadonly(e, NEXT)
  }

  predicate Writable(e: Env, name: string) {
    && TopOf(e.scopes, Environment.Global).Some?
    && !IsReadonly(e, name) && !IsReadonly(e, ARG)
    && !IsReadonly(e, TextOf(OPTIND)) && !IsReadonly(e, TextOf(LAST_OPTIND))
  }

  // ----- Exactly when a run is the flat run -----

  ghost predicate SameName(e: Env, e': Env, s: string) {
    && Look(e', s) == Look(e, s) && IsReadonly(e', s) == IsReadonly(e, s)
    && Exposed(e', s) == Exposed(e, s)
  }

  lemma AssignStep(e: Env, s: string, value: string)
    requires TopOf(e.scopes, Environment.Global).Some? && !IsReadonly(e, s)
    ensures var r := Assign(e, s, value);
            && r.Ok? && TopOf(r.value.scopes, Environment.Global).Some?
            && Look(r.value, s) == Some(value) && !IsReadonly(r.value, s)
            && forall other :: other != s ==> SameName(e, r.value, other)
  {
    hide Look, IsReadonly, Assign, OnlyChanges, Exposed;
    AssignLooks(e, s, value);
    AssignChanges(e, s, value);
    GlobalStays(e.scopes, Assign(e, s, value).value.scopes, s);
    forall other | other != s ensures SameName(e, Assign(e, s, value).value, other) {
      OthersExposed(e, Assign(e, s, value).value, s, other);
    }
  }

  function FirstText(x: seq<Variable>): Option<string> { if x == [] then None else x[0].value }

  lemma UnsetStep(e: Env, s: string)
    requires TopOf(e.scopes, Environment.Global).Some? && !IsReadonly(e, s)
    ensures var (r, x) := (Remove(e, s), Exposed(e, s));
            && r.Ok? && TopOf(r.value.scopes, Environment.Global).Some?
            && Look(r.value, s) == FirstText(x) && (IsReadonly(r.value, s) <==> x != [] && x[0].readonly)
            && forall other :: other != s ==> SameName(e, r.value, other)
  {
    hide Look, IsReadonly, Remove, OnlyChanges, Exposed;
    UnsetLooks(e, s);
    UnsetChanges(e, s);
    GlobalStays(e.scopes, Remove(e, s).value.scopes, s);
    forall other | other != s ensures SameName(e, Remove(e, s).value, other) {
      OthersExposed(e, Remove(e, s).value, s, other);
    }
  }

  /** The updates after a call, when nothing is refused: an OPTARG that is unset is then what that
      exposes. */
  lemma UpdateLooks(e: Env, name: string, result: GetOptsResult)
    requires NameOf(name).Other? && Writable(e, name)
    ensures var (e', c) := SHELL.UpdateVariables(e, NameOf(name), result);
            var (x, optarg) := (Exposed(e, ARG), result.optarg);
            && c == Exited(result.exitCode)
            && Look(e', name) == Some(result.value)
            && Look(e', ARG) == (if optarg.Some? then optarg else FirstText(x))
            && (optarg.None? ==> (IsReadonly(e', ARG) <==> x != [] && x[0].readonly))
            && Look(e', TextOf(OPTIND)) == Some(NatToString(result.optind))
  {
    hide Look, IsReadonly, Assign, Remove, Exposed, NameOf, NatToString, ValidVariableName;
    TextOfName(name);
    var optind := NatToString(result.optind);
    AssignStep(e, name, result.value);
    var e1 := Assign(e, name, result.value).value;
    assert SameName(e, e1, ARG) && SameName(e, e1, TextOf(OPTIND)) && SameName(e, e1, TextOf(LAST_OPTIND));
    if result.optarg.Some? {
      AssignStep(e1, ARG, result.optarg.value);
    } else {
      UnsetStep(e1, ARG);
    }
    var e2 := (if result.optarg.Some? then Assign(e1, ARG, result.optarg.value) else Remove(e1, ARG)).value;
    assert SameName(e1, e2, name) && SameName(e1, e2, TextOf(OPTIND)) && SameName(e1, e2, TextOf(LAST_OPTIND));
    AssignStep(e2, TextOf(OPTIND), optind);
    var e3 := Assign(e2, TextOf(OPTIND), optind).value;
    assert SameName(e2, e3, name) && SameName(e2, e3, ARG) && SameName(e2, e3, TextOf(LAST_OPTIND));
    AssignStep(e3, TextOf(LAST_OPTIND), optind);
    var e4 := Assign(e3, TextOf(LAST_OPTIND), optind).value;
    assert SameName(e3, e4, name) && SameName(e3, e4, ARG) && SameName(e3, e4, TextOf(OPTIND));
  }

  /** What the caller observes of the updates is what it observes of the flat ones, but for an
      OPTARG that is exposed. */
  lemma UpdateBoth(e: Env, vars: Vars, name: string, result: GetOptsResult)
    requires Simulates(e, vars) && Usable(vars, name)
    ensures var (r, flat) := (SHELL.UpdateVariables(e, NameOf(name), result),
                              FLAT.UpdateVariables(vars, NameOf(name), result));
            var (seen, seenFlat) := (SHELL.Observe(r.0, NameOf(name), r.1), FLAT.Observe(flat.0, NameOf(name), flat.1));
            var x := Exposed(e, ARG);
            && r.1 == flat.1 == Exited(result.exitCode)
            && seenFlat.event.optarg == result.optarg
            && seen == seenFlat.(event := seenFlat.event.(
                 optarg := if result.optarg.Some? then result.optarg else FirstText(x)))
            && (result.optarg.None? ==> (IsReadonly(r.0, ARG) <==> x != [] && x[0].readonly))
  {
    hide Look, IsReadonly, Exposed, NameOf, NatToString, ParseInt, SHELL.UpdateVariables, FLAT.UpdateVariables;
    hide ValidVariableName;
    TextOfName(name);
    UsableWritable(e, vars, name);
    UpdateLooks(e, name, result);
    FlatUpdate(vars, name, result);
  }

  lemma UsableWritable(e: Env, vars: Vars, name: string)
    requires Simulates(e, vars) && Usable(vars, name)
    ensures Writable(e, name)
  {
    hide Look, IsReadonly, NameOf, Clean;
    TextOfName(name);
    LookSimulated(e, vars, name);
    LookSimulated(e, vars, ARG);
    LookSimulated(e, vars, TextOf(OPTIND));
    LookSimulated(e, vars, TextOf(LAST_OPTIND));
  }

  lemma FlatUpdate(vars: Vars, name: string, result: GetOptsResult)
    requires Usable(vars, name)
    ensures var (v, c) := FLAT.UpdateVariables(vars, NameOf(name), result);
            && c == Exited(result.exitCode) && v.readonly == vars.readonly
            && v.Str(NameOf(name)) == Some(result.value) && v.Str(OPTARG) == result.optarg
            && v.Str(OPTIND) == Some(NatToString(result.optind))
  {
    hide NatToString;
    UpdateSucceeds(vars, NameOf(name), result);
    UpdatedReads(vars.values, NameOf(name), result);
  }

  lemma ReadonlyRefuses(e: Env, s: string)
    requires IsReadonly(e, s)
    ensures Remove(e, s).Err? && forall value :: Assign(e, s, value).Err?
  {
  }

  lemma ReadonlyKept(e: Env, s: string, other: string)
    requires IsReadonly(e, other)
    ensures Remove(e, s).Ok? ==> IsReadonly(Remove(e, s).value, other)
    ensures forall value :: Assign(e, s, value).Ok? ==> IsReadonly(Assign(e, s, value).value, other)
  {
    hide Look, IsReadonly, Assign, Remove, OnlyChanges, Exposed;
    if s == other {
      ReadonlyRefuses(e, s);
    } else {
      if Remove(e, s).Ok? {
        UnsetChanges(e, s);
        OthersExposed(e, Remove(e, s).value, s, other);
      }
      forall value | Assign(e, s, value).Ok? ensures IsReadonly(Assign(e, s, value).value, other) {
        AssignChanges(e, s, value);
        OthersExposed(e, Assign(e, s, value).value, s, other);
      }
    }
  }

  /** Once a readonly OPTARG shows, every call is refused. */
  lemma ReadonlyArgRefuses(spec: OptionSpec, args: seq<string>, name: string, e: Env)
    requires IsReadonly(e, ARG) && ValidVariableName(name)
    ensures SHELL.Call(spec, args, name, e).1 == Refused
  {
    hide Look, IsReadonly, Assign, Remove, NameOf, NatToString, ParseInt, ValidVariableName, ResolveArgument;
    hide SHELL.ParseNext, SHELL.UpdateVariables;
    ReadonlyKept(e, NEXT, ARG);
    var optind := OptIndOf(Look(e, TextOf(OPTIND)));
    var resumed := LastOptIndOf(Look(e, TextOf(LAST_OPTIND))) == Some(optind);
    var cleared := if resumed then Ok(e) else Remove(e, NEXT);
    if cleared.Ok? {
      ReadonlyNext(spec, args, cleared.value, Max(optind, 1));
      var (parsed, result) := SHELL.ParseNext(spec, args, cleared.value, Max(optind, 1));
      if result.Some? {
        ReadonlyUpdate(parsed, NameOf(name), result.value);
      }
    }
  }

  lemma ReadonlyNext(spec: OptionSpec, args: seq<string>, e: Env, nextIndex: nat)
    requires IsReadonly(e, ARG) && nextIndex >= 1
    ensures IsReadonly(SHELL.ParseNext(spec, args, e, nextIndex).0, ARG)
  {
    hide Look, IsReadonly, Assign, Remove, NatToString, ParseInt, ResolveArgument;
    ReadonlyKept(e, NEXT, ARG);
  }

  lemma ReadonlyUpdate(e: Env, name: Name, result: GetOptsResult)
    requires IsReadonly(e, ARG)
    ensures SHELL.UpdateVariables(e, name, result).1 == Refused
  {
    hide Look, IsReadonly, Assign, Remove, NatToString;
    ReadonlyKept(e, TextOf(name), ARG);
    var first := Assign(e, TextOf(name), result.value);
    if first.Ok? {
      ReadonlyRefuses(first.value, ARG);
    }
  }

  /** How often a run unsets OPTARG: for every event without an argument, and when it ends. */
  function Unsets(events: seq<GetOpts.Event>): (n: nat)
    ensures n >= 1
  {
    if events == [] then 1 else (if events[0].optarg.None? then 1 else 0) + Unsets(events[1..])
  }

  /** What n unsets bring to light does not show: it has no value, and does not refuse the next
      one. */
  predicate StayHidden(x: seq<Variable>, n: nat) {
    forall i :: 0 <= i < |x| && i < n ==> x[i].value.None? && (i + 1 < n ==> !x[i].readonly)
  }

  lemma HiddenStep(x: seq<Variable>, n: nat)
    requires n >= 1
    ensures StayHidden(x, n) <==>
              x == [] || (x[0].value.None? && (n > 1 ==> !x[0].readonly) && StayHidden(Rest(x), n - 1))
    ensures StayHidden(x, 1) <==> FirstText(x) == None
  {
    assert StayHidden(x, 1) <==> x == [] || x[0].value.None?;
    if x != [] {
      assert forall i :: 0 < i < |x| ==> x[i] == Rest(x)[i - 1];
      assert forall i :: 0 <= i < |x| - 1 ==> Rest(x)[i] == x[i + 1];
    }
  }

  /** One event's part in what stays hidden. */
  lemma HiddenEvent(x: seq<Variable>, e: GetOpts.Event, events: seq<GetOpts.Event>)
    ensures var (n, none) := (Unsets([e] + events), e.optarg.None?);
            if none && x != [] && !Blank(x[0]) then !StayHidden(x, n)
            else StayHidden(x, n) <==> StayHidden(if none then Rest(x) else x, Unsets(events))
  {
    hide StayHidden;
    assert ([e] + events)[1..] == events;
    HiddenStep(x, Unsets([e] + events));
    HiddenNothing(Unsets(events));
  }

  lemma HiddenNothing(n: nat)
    ensures StayHidden([], n)
  {
  }

  lemma ShellLoopStep(spec: OptionSpec, args: seq<string>, name: string, e: Env, calls: nat)
    ensures var (after, c) := SHELL.Call(spec, args, name, e);
            var seen := SHELL.Observe(after, NameOf(name), c);
            SHELL.Loop(spec, args, name, e, calls)
            == if c != Exited(0) || calls == 0 then Run([], seen)
               else
                 var rest := SHELL.Loop(spec, args, name, after, calls - 1);
                 Run([seen.event] + rest.events, rest.last)
  {
    hide SHELL.Call, SHELL.Observe;
  }

  /** One step at an option whose unset brings nothing to light. */
  lemma QuietStep(spec: OptionSpec, args: seq<string>, name: string, e: Env, vars: Vars)
    requires Simulates(e, vars) && Usable(vars, name)
    requires FLAT.Call(spec, args, name, vars).1 == Exited(0)
    ensures var (r, flat) := (SHELL.Call(spec, args, name, e), FLAT.Call(spec, args, name, vars));
            var (seen, seenFlat) := (SHELL.Observe(r.0, NameOf(name), r.1), FLAT.Observe(flat.0, NameOf(name), flat.1));
            var (x, none) := (Exposed(e, ARG), seenFlat.event.optarg.None?);
            && r.1 == Exited(0)
            && (!none || RevealsNothing(e, ARG) ==>
                  seen == seenFlat && Simulates(r.0, flat.0) && Exposed(r.0, ARG) == if none then Rest(x) else x)
            && (none ==> seen.event.optarg == FirstText(x) && (IsReadonly(r.0, ARG) <==> x != [] && x[0].readonly))
  {
    hide Simulates, Exposed, RevealsNothing, IsReadonly, SHELL.Call, FLAT.Call, SHELL.UpdateVariables,
      FLAT.UpdateVariables, SHELL.Observe, FLAT.Observe, NameOf;
    var parsed, flatParsed, result := CallParts(spec, args, name, e, vars);
    UpdateBoth(parsed, flatParsed, name, result.value);
    SameReveals(e, parsed);
    if result.value.optarg.Some? || RevealsNothing(e, ARG) {
      UpdateSimulated(parsed, flatParsed, name, result.value);
      var (r, flat) := (SHELL.Call(spec, args, name, e), FLAT.Call(spec, args, name, vars));
      ObserveSimulated(name, r.0, flat.0, r.1);
    }
  }

  /** A run from any cursor on. */
  lemma {:induction false} LoopExact(spec: OptionSpec, args: seq<string>, name: string, e: Env, vars: Vars,
                                     i: nat, j: nat, calls: nat)
    requires Simulates(e, vars) && Usable(vars, name) && FitsMachine(args) && Ready(vars, args, i, j)
    requires i < |args| && IsOption(args[i]) ==> 1 <= j < |args[i]|
    requires |ParseFrom(spec, args, i, j).events| <= calls
    ensures var p := ParseFrom(spec, args, i, j);
            SHELL.Loop(spec, args, name, e, calls) == Run(p.events, Observed(Event("?", None), p.operand, Exited(1)))
            <==> StayHidden(Exposed(e, ARG), Unsets(p.events))
    decreases calls
  {
    hide Simulates, Usable, Exposed, StayHidden, IsReadonly, SHELL.Call, FLAT.Call, SHELL.Observe, FLAT.Observe,
      SHELL.Loop, ParseCluster, Parse, Advance, FitsMachine, ValidVariableName, Unsets, Rest;
    ShellLoopStep(spec, args, name, e, calls);
    if i < |args| && IsOption(args[i]) {
      var p := ParseFrom(spec, args, i, j);
      CallAtOption(spec, args, name, vars, i, j);
      ParseFromAdvance(spec, args, i, j);
      QuietStep(spec, args, name, e, vars);
      var (i', j') := Advance(spec, args, i, j);
      var (e', v) := (SHELL.Call(spec, args, name, e).0, FLAT.Call(spec, args, name, vars).0);
      var rest := ParseFrom(spec, args, i', j');
      HiddenEvent(Exposed(e, ARG), p.events[0], rest.events);
      if p.events[0].optarg.Some? || RevealsNothing(e, ARG) {
        LoopExact(spec, args, name, e', v, i', j', calls - 1);
        LoopConsExact(p.events[0], SHELL.Loop(spec, args, name, e', calls - 1), rest, p);
      } else {
        LoudStep(spec, args, name, e, vars, calls, p);
      }
    } else {
      EndExact(spec, args, name, e, vars, i);
      HiddenAtEnd(Exposed(e, ARG));
    }
  }

  lemma HiddenAtEnd(x: seq<Variable>)
    ensures StayHidden(x, Unsets([])) <==> FirstText(x) == None
  {
    HiddenStep(x, 1);
  }

  /** An unset that brings something to light shows in this event, or has the next call refused. */
  lemma LoudStep(spec: OptionSpec, args: seq<string>, name: string, e: Env, vars: Vars, calls: nat, p: Parsed)
    requires Simulates(e, vars) && Usable(vars, name) && !RevealsNothing(e, ARG) && calls > 0
    requires var flat := FLAT.Call(spec, args, name, vars);
             && flat.1 == Exited(0)
             && p.events != [] && p.events[0] == FLAT.Observe(flat.0, NameOf(name), flat.1).event
             && p.events[0].optarg.None?
    ensures SHELL.Loop(spec, args, name, e, calls) != Run(p.events, Observed(Event("?", None), p.operand, Exited(1)))
  {
    hide Simulates, Usable, Exposed, IsReadonly, SHELL.Call, FLAT.Call, SHELL.Observe, FLAT.Observe, SHELL.Loop,
      ValidVariableName;
    ShellLoopStep(spec, args, name, e, calls);
    QuietStep(spec, args, name, e, vars);
    if Exposed(e, ARG)[0].value.None? {
      var e' := SHELL.Call(spec, args, name, e).0;
      UsableName(vars, name);
      ReadonlyArgRefuses(spec, args, name, e');
      ShellLoopStep(spec, args, name, e', calls - 1);
      ObservedCompletion(SHELL.Call(spec, args, name, e').0, NameOf(name), Refused);
    }
  }

  lemma UsableName(vars: Vars, name: string)
    requires Usable(vars, name)
    ensures ValidVariableName(name)
  {
  }

  lemma ObservedCompletion(e: Env, name: Name, c: Completion)
    ensures SHELL.Observe(e, name, c).completion == c
  {
  }

  lemma FlatCompletion(vars: Vars, name: Name, c: Completion)
    ensures FLAT.Observe(vars, name, c).completion == c
  {
  }

  lemma LoopConsExact(e: GetOpts.Event, run: Run, rest: Parsed, p: Parsed)
    requires p == rest.After(e)
    ensures Run([e] + run.events, run.last) == Run(p.events, Observed(Event("?", None), p.operand, Exited(1)))
       <==> run == Run(rest.events, Observed(Event("?", None), rest.operand, Exited(1)))
  {
    assert ([e] + run.events)[1..] == run.events && ([e] + rest.events)[1..] == rest.events;
  }

  lemma EndExact(spec: OptionSpec, args: seq<string>, name: string, e: Env, vars: Vars, i: nat)
    requires Simulates(e, vars) && Usable(vars, name) && FitsMachine(args) && vars.OptInd() == i + 1
    requires i >= |args| || !IsOption(args[i])
    ensures var r := SHELL.Call(spec, args, name, e);
            && r.1 == Exited(1) && Parse(spec, args, i).events == []
            && SHELL.Observe(r.0, NameOf(name), r.1)
               == Observed(Event("?", FirstText(Exposed(e, ARG))), Parse(spec, args, i).operand, Exited(1))
  {
    hide Simulates, Exposed, SHELL.Call, FLAT.Call, SHELL.UpdateVariables, FLAT.UpdateVariables, SHELL.Observe,
      FLAT.Observe, NameOf, Parse, ParseInt, ValidVariableName;
    CallAtEnd(spec, args, name, vars, i);
    UsableName(vars, name);
    FlatCompletion(FLAT.Call(spec, args, name, vars).0, NameOf(name), FLAT.Call(spec, args, name, vars).1);
    var parsed, flatParsed, result := CallParts(spec, args, name, e, vars);
    UpdateBoth(parsed, flatParsed, name, result.value);
  }

  /** In the shell's environment too, whatever scopes its names are bound in, calling until a call
      fails yields the events of the one-pass parse - exactly when what the run's unsets of OPTARG
      bring to light does not show. The hidden character index, which only the builtin itself
      writes, is bound in one scope. */
  lemma ShellRunExactly(optionsString: string, args: seq<string>, name: string, e: Env, calls: nat)
    requires UsableShell(e, name) && FitsMachine(args)
    requires OptIndOf(Look(e, TextOf(OPTIND))) == 1 && Look(e, NEXT) == None && Look(e, TextOf(LAST_OPTIND)) == None
    requires Clean(e, NEXT)
    requires |Parse(SpecOf(optionsString), args, 0).events| <= calls
    ensures var p := Parse(SpecOf(optionsString), args, 0);
            SHELL.Loop(SpecOf(optionsString), args, name, e, calls)
              == Run(p.events, Observed(Event("?", None), p.operand, Exited(1)))
            <==> StayHidden(Exposed(e, ARG), Unsets(p.events))
  {
    hide Look, IsReadonly, Exposed, BlankOnly, Seen, Parse, ParseCluster, ParseInt, SHELL.Loop, StayHidden, Unsets;
    var vars := Seen(e);
    SeenShows(e);
    TextOfName(name);
    assert ShowsName(e, vars, name) && ShowsName(e, vars, ARG) && ShowsName(e, vars, NEXT);
    assert ShowsName(e, vars, TextOf(OPTIND)) && ShowsName(e, vars, TextOf(LAST_OPTIND));
    StartsAt(SpecOf(optionsString), args);
    LoopExact(SpecOf(optionsString), args, name, e, vars, 0, 1, calls);
  }

  lemma StartsAt(spec: OptionSpec, args: seq<string>)
    ensures ParseFrom(spec, args, 0, 1) == Parse(spec, args, 0)
  {
  }

  /** So when OPTARG is bound in one scope, or in the innermost function's own, or all outer
      bindings are blank, every run is the flat one. */
  lemma ShellWholeRun(optionsString: string, args: seq<string>, name: string, e: Env, calls: nat)
    requires UsableShell(e, name) && FitsMachine(args)
    requires OptIndOf(Look(e, TextOf(OPTIND))) == 1 && Look(e, NEXT) == None && Look(e, TextOf(LAST_OPTIND)) == None
    requires Clean(e, ARG) && Clean(e, NEXT)
    requires |Parse(SpecOf(optionsString), args, 0).events| <= calls
    ensures var p := Parse(SpecOf(optionsString), args, 0);
            SHELL.Loop(SpecOf(optionsString), args, name, e, calls)
            == Run(p.events, Observed(Event("?", None), p.operand, Exited(1)))
  {
    hide Exposed, Parse, SHELL.Loop, Unsets, Look, UsableShell;
    ShellRunExactly(optionsString, args, name, e, calls);
  }

  /** `OPTARG=new getopts ...` with a global OPTARG: every run differs from the flat one. */
  lemma CommandScopeRevealed(optionsString: string, args: seq<string>, name: string, calls: nat,
                             old': string, new': string)
    requires ValidVariableName(name) && NameOf(name).Other? && FitsMachine(args)
    requires |Parse(SpecOf(optionsString), args, 0).events| <= calls
    ensures var e := Env([Frame(Environment.Global, map[ARG := Variable(Some(old'), false, false)]),
                          Frame(Command, map[ARG := Variable(Some(new'), false, false)])], false, 2);
            var p := Parse(SpecOf(optionsString), args, 0);
            SHELL.Loop(SpecOf(optionsString), args, name, e, calls)
            != Run(p.events, Observed(Event("?", None), p.operand, Exited(1)))
  {
    hide SHELL.Loop, ValidVariableName, Parse, FitsMachine, NameOf;
    var e := Env([Frame(Environment.Global, map[ARG := Variable(Some(old'), false, false)]),
                  Frame(Command, map[ARG := Variable(Some(new'), false, false)])], false, 2);
    TwoScopes(e, old', new');
    TextOfName(name);
    ShellRunExactly(optionsString, args, name, e, calls);
    ShowsThrough(Exposed(e, ARG), Unsets(Parse(SpecOf(optionsString), args, 0).events));
  }

  lemma ShowsThrough(x: seq<Variable>, n: nat)
    requires n >= 1 && FirstText(x).Some?
    ensures !StayHidden(x, n)
  {
  }

  lemma TwoScopes(e: Env, old': string, new': string)
    requires e == Env([Frame(Environment.Global, map[ARG := Variable(Some(old'), false, false)]),
                       Frame(Command, map[ARG := Variable(Some(new'), false, false)])], false, 2)
    ensures Exposed(e, ARG) == [Variable(Some(old'), false, false)] && !IsReadonly(e, ARG)
    ensures TopOf(e.scopes, Environment.Global).Some?
    ensures forall s :: s != ARG ==> Exposed(e, s) == [] && Look(e, s) == None && !IsReadonly(e, s)
  {
    IsTopBinding(e.scopes, ARG, 1);
    assert FindBelow(e.scopes, ARG, Anywhere, 1) == Some(0);
    assert FindBelow(e.scopes, ARG, Anywhere, 0) == None;
    assert TopBelow(e.scopes, Environment.Global, 1) == Some(0);
    forall s | s != ARG ensures Find(e.scopes, s, Anywhere) == None {
      TopBinding(e.scopes, s);
    }
  }

  // ----- What a function declares as its own -----

  /** The name is still bound in the same scope, and its outer bindings are what they were. */
  ghost predicate OuterKept(e: Env, e': Env, s: string, k: nat)
    requires k < |e.scopes|
  {
    && |e.scopes| == |e'.scopes| && Find(e'.scopes, s, Anywhere) == Some(k)
    && (IsCurrentLocal(e.scopes, k) ==> IsCurrentLocal(e'.scopes, k))
    && forall j :: 0 <= j < k ==> Entry(e'.scopes[j].vars, s) == Entry(e.scopes[j].vars, s)
  }

  lemma OthersOuterKept(e: Env, e': Env, s: string, other: string, k: nat)
    requires OnlyChanges(e.scopes, e'.scopes, s) && other != s && Find(e.scopes, other, Anywhere) == Some(k)
    ensures OuterKept(e, e', other, k)
  {
    VisibleKept(e.scopes, e'.scopes, s, other);
    forall j | 0 <= j < |e.scopes| ensures SameBut(e.scopes[j], e'.scopes[j], s) {
    }
  }

  lemma SetOuterKept(e: Env, e': Env, s: string, k: nat, v: Variable)
    requires Find(e.scopes, s, Anywhere) == Some(k) && e'.scopes == SetVar(e.scopes, k, s, v)
    ensures OuterKept(e, e', s, k)
  {
    TopBinding(e.scopes, s);
    assert forall j :: 0 <= j < |e.scopes| && j != k ==> e'.scopes[j] == e.scopes[j];
    IsTopBinding(e'.scopes, s, k);
  }

  lemma AssignOuterKept(e: Env, s: string, value: string, other: string, k: nat)
    requires Assign(e, s, value).Ok? && Find(e.scopes, other, Anywhere) == Some(k)
    ensures OuterKept(e, Assign(e, s, value).value, other, k)
  {
    hide OnlyChanges, OuterKept;
    var e' := Assign(e, s, value).value;
    AssignChanges(e, s, value);
    if other == s {
      forall v | e'.scopes == SetVar(e.scopes, k, s, v) ensures OuterKept(e, e', s, k) {
        SetOuterKept(e, e', s, k, v);
      }
    } else {
      OthersOuterKept(e, e', s, other, k);
    }
  }

  lemma UnsetOuterKept(e: Env, s: string, other: string, k: nat)
    requires Remove(e, s).Ok? && Find(e.scopes, other, Anywhere) == Some(k)
    requires other == s ==> IsCurrentLocal(e.scopes, k)
    ensures OuterKept(e, Remove(e, s).value, other, k)
  {
    hide OnlyChanges, OuterKept;
    UnsetChanges(e, s);
    if other == s {
      SetOuterKept(e, Remove(e, s).value, s, k, PLACEHOLDER);
    } else {
      OthersOuterKept(e, Remove(e, s).value, s, other, k);
    }
  }

  lemma OuterKeptTwice(e: Env, e': Env, e'': Env, s: string, k: nat)
    requires k < |e.scopes| && OuterKept(e, e', s, k) && OuterKept(e', e'', s, k)
    ensures OuterKept(e, e'', s, k)
  {
  }

  lemma OuterKeptSame(e: Env, s: string, k: nat)
    requires Find(e.scopes, s, Anywhere) == Some(k)
    ensures OuterKept(e, e, s, k)
  {
  }

  /** The name's scope is safe from unsets. */
  predicate Held(e: Env, s: string, k: nat) {
    && Find(e.scopes, s, Anywhere) == Some(k)
    && (s == ARG || s == NEXT ==> IsCurrentLocal(e.scopes, k))
  }

  lemma StillHeld(e: Env, e': Env, s: string, k: nat)
    requires Held(e, s, k) && OuterKept(e, e', s, k)
    ensures Held(e', s, k)
  {
  }

  lemma NextOuterKept(spec: OptionSpec, args: seq<string>, e: Env, nextIndex: nat, s: string, k: nat)
    requires nextIndex >= 1 && Held(e, s, k)
    ensures OuterKept(e, SHELL.ParseNext(spec, args, e, nextIndex).0, s, k)
  {
    hide OuterKept, Assign, Remove, Look, NatToString, ParseInt, ResolveArgument;
    OuterKeptSame(e, s, k);
    if Remove(e, NEXT).Ok? {
      UnsetOuterKept(e, NEXT, s, k);
    }
    forall value | Assign(e, NEXT, value).Ok? ensures OuterKept(e, Assign(e, NEXT, value).value, s, k) {
      AssignOuterKept(e, NEXT, value, s, k);
    }
  }

  /** A step that keeps the outer bindings, after others that did. */
  lemma ThenAssign(e: Env, e': Env, t: string, value: string, s: string, k: nat)
    requires Held(e, s, k) && OuterKept(e, e', s, k) && Assign(e', t, value).Ok?
    ensures OuterKept(e, Assign(e', t, value).value, s, k)
  {
    hide OuterKept, Assign;
    StillHeld(e, e', s, k);
    AssignOuterKept(e', t, value, s, k);
    OuterKeptTwice(e, e', Assign(e', t, value).value, s, k);
  }

  lemma ThenUnset(e: Env, e': Env, t: string, s: string, k: nat)
    requires Held(e, s, k) && OuterKept(e, e', s, k) && Remove(e', t).Ok? && (t == ARG || t == NEXT)
    ensures OuterKept(e, Remove(e', t).value, s, k)
  {
    hide OuterKept, Remove;
    StillHeld(e, e', s, k);
    UnsetOuterKept(e', t, s, k);
    OuterKeptTwice(e, e', Remove(e', t).value, s, k);
  }

  lemma UpdateOuterKept(e: Env, name: Name, result: GetOptsResult, s: string, k: nat)
    requires Held(e, s, k)
    ensures OuterKept(e, SHELL.UpdateVariables(e, name, result).0, s, k)
  {
    hide OuterKept, Assign, Remove, NatToString, Held;
    var optind := NatToString(result.optind);
    OuterKeptHeld(e, s, k);
    var first := Assign(e, TextOf(name), result.value);
    if first.Ok? {
      ThenAssign(e, e, TextOf(name), result.value, s, k);
      var second :=
        if result.optarg.Some? then Assign(first.value, ARG, result.optarg.value) else Remove(first.value, ARG);
      if second.Ok? {
        if result.optarg.Some? {
          ThenAssign(e, first.value, ARG, result.optarg.value, s, k);
        } else {
          ThenUnset(e, first.value, ARG, s, k);
        }
        var third := Assign(second.value, TextOf(OPTIND), optind);
        if third.Ok? {
          ThenAssign(e, second.value, TextOf(OPTIND), optind, s, k);
          if Assign(third.value, TextOf(LAST_OPTIND), optind).Ok? {
            ThenAssign(e, third.value, TextOf(LAST_OPTIND), optind, s, k);
          }
        }
      }
    }
  }

  lemma OuterKeptHeld(e: Env, s: string, k: nat)
    requires Held(e, s, k)
    ensures OuterKept(e, e, s, k)
  {
    OuterKeptSame(e, s, k);
  }

  /** A call works on the topmost binding of every name it writes and leaves outer ones alone -
      except that OPTARG and the hidden character index, when unset, lose a binding that is not
      the innermost function's own. So a function with its own OPTIND parses on its own. */
  lemma CallOuterKept(spec: OptionSpec, args: seq<string>, name: string, e: Env, s: string, k: nat)
    requires Held(e, s, k)
    ensures OuterKept(e, SHELL.Call(spec, args, name, e).0, s, k)
  {
    hide OuterKept, Remove, Look, ParseInt, SHELL.ParseNext, SHELL.UpdateVariables, ValidVariableName;
    OuterKeptSame(e, s, k);
    if Remove(e, NEXT).Ok? {
      ThenUnset(e, e, NEXT, s, k);
    }
    var optind := OptIndOf(Look(e, TextOf(OPTIND)));
    var resumed := LastOptIndOf(Look(e, TextOf(LAST_OPTIND))) == Some(optind);
    var cleared := if resumed || Remove(e, NEXT).Err? then e else Remove(e, NEXT).value;
    StillHeld(e, cleared, s, k);
    NextOuterKept(spec, args, cleared, Max(optind, 1), s, k);
    var (parsed, result) := SHELL.ParseNext(spec, args, cleared, Max(optind, 1));
    OuterKeptTwice(e, cleared, parsed, s, k);
    StillHeld(e, parsed, s, k);
    if result.Some? {
      UpdateOuterKept(parsed, NameOf(name), result.value, s, k);
      OuterKeptTwice(e, parsed, SHELL.UpdateVariables(parsed, NameOf(name), result.value).0, s, k);
    }
  }

  /** The environment after some calls, whatever their outcomes. */
  function After(spec: OptionSpec, args: seq<string>, name: string, e: Env, calls: nat): Env
    decreases calls
  {
    if calls == 0 then e else After(spec, args, name, SHELL.Call(spec, args, name, e).0, calls - 1)
  }

  /** When the function returns and its scope is popped, its caller's binding is back: OPTIND when
      it was declared local, and likewise any other name. */
  lemma LocalRestored(spec: OptionSpec, args: seq<string>, name: string, e: Env, calls: nat, s: string)
    requires e.scopes != [] && e.scopes[|e.scopes| - 1].scope.Local? && s in e.scopes[|e.scopes| - 1].vars
    ensures var e' := After(spec, args, name, e, calls);
            && |e'.scopes| == |e.scopes|
            && Visible(Pop(e', Local).0.scopes, s, Anywhere) == Visible(Pop(e, Local).0.scopes, s, Anywhere)
  {
    hide After, Visible, OuterKept, Held;
    var top: nat := |e.scopes| - 1;
    var e' := After(spec, args, name, e, calls);
    TopHeld(e, s);
    CallsOuterKept(spec, args, name, e, calls, s, top);
    SameBelow(e, e', s, top);
    SameHeight(e, e', s, top);
  }

  lemma TopHeld(e: Env, s: string)
    requires e.scopes != [] && e.scopes[|e.scopes| - 1].scope.Local? && s in e.scopes[|e.scopes| - 1].vars
    ensures Held(e, s, |e.scopes| - 1)
  {
    IsTopBinding(e.scopes, s, |e.scopes| - 1);
  }

  lemma SameHeight(e: Env, e': Env, s: string, k: nat)
    requires k < |e.scopes| && OuterKept(e, e', s, k)
    ensures |e'.scopes| == |e.scopes|
  {
  }

  lemma {:induction false} CallsOuterKept(spec: OptionSpec, args: seq<string>, name: string, e: Env, calls: nat,
                                          s: string, k: nat)
    requires Held(e, s, k)
    ensures OuterKept(e, After(spec, args, name, e, calls), s, k)
    decreases calls
  {
    hide OuterKept, SHELL.Call;
    if calls == 0 {
      OuterKeptSame(e, s, k);
    } else {
      CallOuterKept(spec, args, name, e, s, k);
      var next := SHELL.Call(spec, args, name, e).0;
      StillHeld(e, next, s, k);
      CallsOuterKept(spec, args, name, next, calls - 1, s, k);
      OuterKeptTwice(e, next, After(spec, args, name, next, calls - 1), s, k);
    }
  }

  lemma SameBelow(e: Env, e': Env, s: string, k: nat)
    requires k < |e.scopes| && OuterKept(e, e', s, k)
    ensures Visible(e'.scopes[..k], s, Anywhere) == Visible(e.scopes[..k], s, Anywhere)
  {
    TopBinding(e.scopes[..k], s);
    forall j | 0 <= j < k ensures Entry(e'.scopes[..k][j].vars, s) == Entry(e.scopes[..k][j].vars, s) {
    }
    var below := Find(e.scopes[..k], s, Anywhere);
    assert forall j :: 0 <= j < k ==>
      (s in e'.scopes[..k][j].vars <==> Entry(e'.scopes[..k][j].vars, s).Some?) &&
      (s in e.scopes[..k][j].vars <==> Entry(e.scopes[..k][j].vars, s).Some?);
    if below.Some? {
      IsTopBinding(e'.scopes[..k], s, below.value);
    } else {
      TopBinding(e'.scopes[..k], s);
    }
  }
}
