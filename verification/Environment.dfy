/** The shell's variable environment: a stack of scopes with policy-driven lookup. */
module Environment {
  import opened Wrappers

  datatype Scope = Local | Global | Command

  datatype Policy = Anywhere | OnlyInGlobal | OnlyInCurrentLocal | OnlyInLocal

  /** A shell variable; one without a value is declared but unset. */
  datatype Variable = Variable(value: Option<string>, exported: bool, readonly: bool)

  const PLACEHOLDER := Variable(None, false, false)

  datatype Frame = Frame(scope: Scope, vars: map<string, Variable>)

  datatype Error = ReadonlyVariable | MissingScope | UnexpectedScopeType | MissingScopeForNewVariable | UpdateFailed

  /** A change made to a variable after assignment; it may fail after changing it. */
  type Updater = Variable -> (Variable, bool)

  const KEEP: Updater := v => (v, true)

  /** The environment as a value; the last frame is the top of the stack. */
  datatype Env = Env(scopes: seq<Frame>, exportOnModification: bool, entryCount: nat)

  // ----- Which frames a policy consults -----

  predicate IsCurrentLocal(scopes: seq<Frame>, k: nat)
    requires k < |scopes|
  {
    scopes[k].scope.Local? && forall j :: k < j < |scopes| ==> !scopes[j].scope.Local?
  }

  predicate Eligible(scopes: seq<Frame>, k: nat, policy: Policy)
    requires k < |scopes|
  {
    match policy
    case Anywhere => true
    case OnlyInGlobal => scopes[k].scope.Global?
    case OnlyInCurrentLocal => IsCurrentLocal(scopes, k)
    case OnlyInLocal => scopes[k].scope.Local?
  }

  predicate Binds(scopes: seq<Frame>, name: string, policy: Policy, k: nat)
    requires k < |scopes|
  {
    Eligible(scopes, k, policy) && name in scopes[k].vars
  }

  /** The topmost of the lowest `n` frames that the policy consults and that binds the name. */
  function FindBelow(scopes: seq<Frame>, name: string, policy: Policy, n: nat): (r: Option<nat>)
    requires n <= |scopes|
    ensures r.Some? ==> r.value < n && Binds(scopes, name, policy, r.value)
    ensures forall k :: (if r.Some? then r.value + 1 else 0) <= k < n ==> !Binds(scopes, name, policy, k)
  {
    if n == 0 then None
    else if Binds(scopes, name, policy, n - 1) then Some(n - 1)
    else FindBelow(scopes, name, policy, n - 1)
  }

  function Find(scopes: seq<Frame>, name: string, policy: Policy): (r: Option<nat>)
    ensures r.Some? ==> r.value < |scopes| && Binds(scopes, name, policy, r.value)
    ensures forall k :: (if r.Some? then r.value + 1 else 0) <= k < |scopes| ==> !Binds(scopes, name, policy, k)
  {
    FindBelow(scopes, name, policy, |scopes|)
  }

  /** What a lookup under a policy sees among the lowest `n` frames. */
  function VisibleBelow(scopes: seq<Frame>, name: string, policy: Policy, n: nat): Option<Variable>
    requires n <= |scopes|
  {
    match FindBelow(scopes, name, policy, n)
    case Some(k) => Some(scopes[k].vars[name])
    case None => None
  }

  /** What a lookup under a policy sees. */
  function Visible(scopes: seq<Frame>, name: string, policy: Policy): Option<Variable> {
    VisibleBelow(scopes, name, policy, |scopes|)
  }

  predicate NoLocalFrom(scopes: seq<Frame>, i: nat)
    requires i <= |scopes|
  {
    forall j :: i <= j < |scopes| ==> !scopes[j].scope.Local?
  }

  /** The loops' own test for passing over a frame, given how many local frames they have met. */
  predicate Skipped(scope: Scope, localCount: int, policy: Policy) {
    match policy
    case Anywhere => false
    case OnlyInGlobal => !scope.Global?
    case OnlyInCurrentLocal => !(scope.Local? && localCount == 1)
    case OnlyInLocal => !scope.Local?
  }

  /** The topmost exported binding of a name among the lowest `n` frames. */
  function TopExported(scopes: seq<Frame>, name: string, n: nat): Option<Variable>
    requires n <= |scopes|
  {
    if n == 0 then None
    else if name in scopes[n - 1].vars && scopes[n - 1].vars[name].exported then Some(scopes[n - 1].vars[name])
    else TopExported(scopes, name, n - 1)
  }

  /** The bindings collected from frame `i` up are right, and the rest is still below. */
  ghost predicate Collected(visible: map<string, Variable>, scopes: seq<Frame>, policy: Policy, i: nat)
    requires i <= |scopes|
  {
    forall name ::
      Visible(scopes, name, policy) == if name in visible then Some(visible[name])
        else VisibleBelow(scopes, name, policy, i)
  }

  lemma CollectNothing(scopes: seq<Frame>, policy: Policy)
    ensures Collected(map[], scopes, policy, |scopes|)
  {
  }

  lemma CollectFrame(visible: map<string, Variable>, scopes: seq<Frame>, policy: Policy, i: nat)
    requires i < |scopes| && Collected(visible, scopes, policy, i + 1)
    ensures if Eligible(scopes, i, policy) then Collected(scopes[i].vars + visible, scopes, policy, i)
            else Collected(visible, scopes, policy, i)
  {
    hide Visible;
    var after := if Eligible(scopes, i, policy) then scopes[i].vars + visible else visible;
    forall name
      ensures Visible(scopes, name, policy)
              == if name in after then Some(after[name]) else VisibleBelow(scopes, name, policy, i)
    {
      assert FindBelow(scopes, name, policy, i + 1)
          == if Binds(scopes, name, policy, i) then Some(i) else FindBelow(scopes, name, policy, i);
    }
  }

  /** Below the current local frame there is no other. */
  lemma CollectNoMore(visible: map<string, Variable>, scopes: seq<Frame>, i: nat)
    requires i < |scopes| && scopes[i].scope.Local? && Collected(visible, scopes, OnlyInCurrentLocal, i)
    ensures Collected(visible, scopes, OnlyInCurrentLocal, 0)
  {
    hide Visible;
    forall name
      ensures VisibleBelow(scopes, name, OnlyInCurrentLocal, i) == VisibleBelow(scopes, name, OnlyInCurrentLocal, 0)
    {
      assert FindBelow(scopes, name, OnlyInCurrentLocal, i).None?;
    }
  }

  lemma CollectAll(visible: map<string, Variable>, scopes: seq<Frame>, policy: Policy)
    requires Collected(visible, scopes, policy, 0)
    ensures forall name :: Entry(visible, name) == Visible(scopes, name, policy)
  {
  }

  /** The topmost frame of a scope type among the lowest `n`. */
  function TopBelow(scopes: seq<Frame>, scope: Scope, n: nat): (r: Option<nat>)
    requires n <= |scopes|
    ensures r.Some? ==> r.value < n && scopes[r.value].scope == scope
    ensures forall k :: (if r.Some? then r.value + 1 else 0) <= k < n ==> scopes[k].scope != scope
  {
    if n == 0 then None
    else if scopes[n - 1].scope == scope then Some(n - 1)
    else TopBelow(scopes, scope, n - 1)
  }

  function TopOf(scopes: seq<Frame>, scope: Scope): Option<nat> {
    TopBelow(scopes, scope, |scopes|)
  }

  function Entry(m: map<string, Variable>, name: string): Option<Variable> {
    if name in m then Some(m[name]) else None
  }

  /** Which frames a policy looks at: all, the global ones, the local ones, or of the local ones the
      topmost only. */
  ghost predicate LooksAt(scopes: seq<Frame>, policy: Policy, k: nat)
    requires k < |scopes|
  {
    if policy == Anywhere then true
    else if policy == OnlyInGlobal then scopes[k].scope == Global
    else
      && scopes[k].scope == Local
      && (policy == OnlyInCurrentLocal ==> forall j :: k < j < |scopes| ==> scopes[j].scope != Local)
  }

  /** A lookup finds the variable of the topmost frame that its policy looks at and that binds the
      name, and nothing only if there is none. */
  lemma LookupFinds(scopes: seq<Frame>, name: string, policy: Policy)
    ensures match Visible(scopes, name, policy)
            case None => forall k :: 0 <= k < |scopes| && LooksAt(scopes, policy, k) ==> name !in scopes[k].vars
            case Some(v) =>
              exists k :: && 0 <= k < |scopes| && LooksAt(scopes, policy, k)
                          && name in scopes[k].vars && scopes[k].vars[name] == v
                          && forall j :: k < j < |scopes| && LooksAt(scopes, policy, j) ==> name !in scopes[j].vars
  {
    forall k | 0 <= k < |scopes|
      ensures Binds(scopes, name, policy, k) <==> LooksAt(scopes, policy, k) && name in scopes[k].vars
    {
    }
    hide Eligible, LooksAt;
    var found := Find(scopes, name, policy);
    if found.Some? {
      assert Binds(scopes, name, policy, found.value);
    }
  }

  /** A name is exported exactly when some frame exports it, with the variable of the topmost frame
      that does: one above that is not exported hides nothing. */
  lemma {:induction false} ExportedIs(scopes: seq<Frame>, name: string, n: nat)
    requires n <= |scopes|
    ensures match TopExported(scopes, name, n)
            case None => forall k :: 0 <= k < n && name in scopes[k].vars ==> !scopes[k].vars[name].exported
            case Some(v) =>
              exists k :: 0 <= k < n && name in scopes[k].vars && scopes[k].vars[name] == v && v.exported
                          && forall j :: k < j < n && name in scopes[j].vars ==> !scopes[j].vars[name].exported
  {
    if n > 0 {
      ExportedIs(scopes, name, n - 1);
    }
  }

  // ----- What each operation does to the environment -----

  function SetVar(scopes: seq<Frame>, k: nat, name: string, v: Variable): seq<Frame>
    requires k < |scopes|
  {
    scopes[k := scopes[k].(vars := scopes[k].vars[name := v])]
  }

  function RemoveVar(scopes: seq<Frame>, k: nat, name: string): seq<Frame>
    requires k < |scopes|
  {
    scopes[k := scopes[k].(vars := scopes[k].vars - {name})]
  }

  function Push(e: Env, scope: Scope): Env {
    e.(scopes := e.scopes + [Frame(scope, map[])])
  }

  /** The top frame goes whatever its type; the type only decides the verdict. */
  function Pop(e: Env, expected: Scope): (Env, Result<(), Error>) {
    if e.scopes == [] then (e, Err(MissingScope))
    else
      var top := |e.scopes| - 1;
      (e.(scopes := e.scopes[..top]), if e.scopes[top].scope == expected then Ok(()) else Err(UnexpectedScopeType))
  }

  function Unset(e: Env, name: string): (Env, Result<Option<Variable>, Error>) {
    match Find(e.scopes, name, Anywhere)
    case None => (e, Ok(None))
    case Some(k) =>
      var v := e.scopes[k].vars[name];
      if v.readonly then (e, Err(ReadonlyVariable))
      else if IsCurrentLocal(e.scopes, k) then (e.(scopes := SetVar(e.scopes, k, name, PLACEHOLDER)), Ok(Some(v)))
      else
        (e.(scopes := RemoveVar(e.scopes, k, name), entryCount := if e.entryCount > 0 then e.entryCount - 1 else 0),
         Ok(Some(v)))
  }

  function Exported(e: Env, v: Variable): Variable {
    if e.exportOnModification then v.(exported := true) else v
  }

  function Add(e: Env, name: string, v: Variable, scope: Scope): (Env, Result<(), Error>) {
    match TopOf(e.scopes, scope)
    case None => (e, Err(MissingScopeForNewVariable))
    case Some(k) =>
      (e.(scopes := SetVar(e.scopes, k, name, Exported(e, v)),
          entryCount := e.entryCount + if name in e.scopes[k].vars then 0 else 1), Ok(()))
  }

  /** A variable after assignment, automatic export and the caller's own update. */
  function Assigned(e: Env, v: Variable, value: string, updater: Updater): (Variable, bool) {
    updater(Exported(e, v.(value := Some(value))))
  }

  function UpdateOrAdd(e: Env, name: string, value: string, updater: Updater, policy: Policy, scope: Scope)
    : (Env, Result<(), Error>)
  {
    match Find(e.scopes, name, policy)
    case Some(k) =>
      var v := e.scopes[k].vars[name];
      if v.readonly then (e, Err(ReadonlyVariable))
      else
        var (v', ok) := Assigned(e, v, value, updater);
        (e.(scopes := SetVar(e.scopes, k, name, v')), if ok then Ok(()) else Err(UpdateFailed))
    case None =>
      var (v', ok) := Assigned(e, PLACEHOLDER, value, updater);
      if ok then Add(e, name, v', scope) else (e, Err(UpdateFailed))
  }

  // ----- The environment, changed in place -----

  class ShellEnvironment {
    var scopes: seq<Frame>
    var exportOnModification: bool
    var entryCount: nat

    function State(): Env
      reads this
    {
      Env(scopes, exportOnModification, entryCount)
    }

    constructor ()
      ensures State() == Env([Frame(Global, map[])], false, 0)
    {
      scopes, exportOnModification, entryCount := [Frame(Global, map[])], false, 0;
    }

    method PushScope(scope: Scope)
      modifies this
      ensures State() == Push(old(State()), scope)
    {
      scopes := scopes + [Frame(scope, map[])];
    }

    method PopScope(expected: Scope) returns (r: Result<(), Error>)
      modifies this
      ensures (State(), r) == Pop(old(State()), expected)
    {
      if scopes == [] {
        return Err(MissingScope);
      }
      var top := scopes[|scopes| - 1];
      scopes := scopes[..|scopes| - 1];
      r := if top.scope == expected then Ok(()) else Err(UnexpectedScopeType);
    }

    /** Top-down search, counting the local frames passed. */
    method GetUsingPolicy(name: string, policy: Policy) returns (r: Option<Variable>)
      ensures r == Visible(scopes, name, policy)
    {
      var localCount := 0;
      var i := |scopes|;
      while i > 0
        invariant 0 <= i <= |scopes|
        invariant localCount == 0 <==> NoLocalFrom(scopes, i)
        invariant localCount >= 0
        invariant Find(scopes, name, policy) == FindBelow(scopes, name, policy, i)
      {
        i := i - 1;
        var frame := scopes[i];
        if frame.scope.Local? {
          localCount := localCount + 1;
        }
        if Skipped(frame.scope, localCount, policy) {
          continue;
        }
        if name in frame.vars {
          return Some(frame.vars[name]);
        }
        if frame.scope.Local? && policy.OnlyInCurrentLocal? {
          break;
        }
      }
      r := None;
    }

    method Get(name: string) returns (r: Option<(Scope, Variable)>)
      ensures r == match Find(scopes, name, Anywhere)
                   case Some(k) => Some((scopes[k].scope, scopes[k].vars[name]))
                   case None => None
    {
      var i := |scopes|;
      while i > 0
        invariant 0 <= i <= |scopes|
        invariant Find(scopes, name, Anywhere) == FindBelow(scopes, name, Anywhere, i)
      {
        i := i - 1;
        if name in scopes[i].vars {
          return Some((scopes[i].scope, scopes[i].vars[name]));
        }
      }
      r := None;
    }

    /** Collects bindings top-down; a name already collected is not overwritten. */
    method IterUsingPolicy(policy: Policy) returns (visible: map<string, Variable>)
      ensures forall name :: Entry(visible, name) == Visible(scopes, name, policy)
    {
      hide Collected, Visible;
      visible := map[];
      CollectNothing(scopes, policy);
      var localCount := 0;
      var i := |scopes|;
      while i > 0
        invariant 0 <= i <= |scopes|
        invariant localCount == 0 <==> NoLocalFrom(scopes, i)
        invariant localCount >= 0
        invariant Collected(visible, scopes, policy, i)
      {
        i := i - 1;
        var frame := scopes[i];
        if frame.scope.Local? {
          localCount := localCount + 1;
        }
        assert Skipped(frame.scope, localCount, policy) == !Eligible(scopes, i, policy);
        CollectFrame(visible, scopes, policy, i);
        if Skipped(frame.scope, localCount, policy) {
          continue;
        }
        visible := frame.vars + visible;
        if frame.scope.Local? && policy.OnlyInCurrentLocal? {
          CollectNoMore(visible, scopes, i);
          i := 0;
        }
      }
      CollectAll(visible, scopes, policy);
    }

    /** Collects the exported bindings top-down. A binding that is not exported does not hide
        an exported one below it. */
    method IterExported() returns (visible: map<string, Variable>)
      ensures forall name :: Entry(visible, name) == TopExported(scopes, name, |scopes|)
    {
      visible := map[];
      var i := |scopes|;
      while i > 0
        invariant 0 <= i <= |scopes|
        invariant forall name :: TopExported(scopes, name, |scopes|)
                              == if name in visible then Some(visible[name]) else TopExported(scopes, name, i)
      {
        i := i - 1;
        var vars := scopes[i].vars;
        visible := (map name | name in vars && vars[name].exported :: vars[name]) + visible;
      }
    }

    method UnsetVariable(name: string) returns (r: Result<Option<Variable>, Error>)
      modifies this
      ensures (State(), r) == Unset(old(State()), name)
    {
      var localCount := 0;
      var i := |scopes|;
      while i > 0
        invariant 0 <= i <= |scopes| && State() == old(State())
        invariant localCount == 0 <==> NoLocalFrom(scopes, i)
        invariant localCount >= 0
        invariant Find(scopes, name, Anywhere) == FindBelow(scopes, name, Anywhere, i)
      {
        i := i - 1;
        var frame := scopes[i];
        if frame.scope.Local? {
          localCount := localCount + 1;
        }
        if name in frame.vars {
          var v := frame.vars[name];
          if v.readonly {
            return Err(ReadonlyVariable);
          }
          if frame.scope.Local? && localCount == 1 {
            scopes := SetVar(scopes, i, name, PLACEHOLDER);
          } else {
            scopes := RemoveVar(scopes, i, name);
            if entryCount > 0 {
              entryCount := entryCount - 1;
            }
          }
          return Ok(Some(v));
        }
      }
      r := Ok(None);
    }

    method AddVariable(name: string, v: Variable, scope: Scope) returns (r: Result<(), Error>)
      modifies this
      ensures (State(), r) == Add(old(State()), name, v, scope)
    {
      var exported := if exportOnModification then v.(exported := true) else v;
      var i := |scopes|;
      while i > 0
        invariant 0 <= i <= |scopes| && State() == old(State())
        invariant TopOf(scopes, scope) == TopBelow(scopes, scope, i)
      {
        i := i - 1;
        if scopes[i].scope == scope {
          if name !in scopes[i].vars {
            entryCount := entryCount + 1;
          }
          scopes := SetVar(scopes, i, name, exported);
          return Ok(());
        }
      }
      r := Err(MissingScopeForNewVariable);
    }

    /** Index of the frame whose variable an update reaches. */
    method FindMutable(name: string, policy: Policy) returns (r: Option<nat>)
      ensures r == Find(scopes, name, policy)
    {
      var localCount := 0;
      var i := |scopes|;
      while i > 0
        invariant 0 <= i <= |scopes|
        invariant localCount == 0 <==> NoLocalFrom(scopes, i)
        invariant localCount >= 0
        invariant Find(scopes, name, policy) == FindBelow(scopes, name, policy, i)
      {
        i := i - 1;
        var frame := scopes[i];
        if frame.scope.Local? {
          localCount := localCount + 1;
        }
        if Skipped(frame.scope, localCount, policy) {
          continue;
        }
        if name in frame.vars {
          return Some(i);
        }
        if frame.scope.Local? && policy.OnlyInCurrentLocal? {
          break;
        }
      }
      r := None;
    }

    method UpdateOrAddVariable(name: string, value: string, updater: Updater, policy: Policy, scope: Scope)
      returns (r: Result<(), Error>)
      modifies this
      ensures (State(), r) == UpdateOrAdd(old(State()), name, value, updater, policy, scope)
    {
      var found := FindMutable(name, policy);
      var v := if found.Some? then scopes[found.value].vars[name] else PLACEHOLDER;
      if v.readonly {
        return Err(ReadonlyVariable);
      }
      v := v.(value := Some(value));
      if exportOnModification {
        v := v.(exported := true);
      }
      var (updated, ok) := updater(v);
      if found.Some? {
        scopes := SetVar(scopes, found.value, name, updated);
        return if ok then Ok(()) else Err(UpdateFailed);
      }
      if !ok {
        return Err(UpdateFailed);
      }
      r := AddVariable(name, updated, scope);
    }
  }

  // ----- Lookup after an update -----

  /** Pairs of lookup policy and creation scope in which a created variable is where the policy
      looks for it. */
  predicate Coherent(policy: Policy, scope: Scope) {
    match policy
    case Anywhere => true
    case OnlyInGlobal => scope.Global?
    case OnlyInCurrentLocal => scope.Local?
    case OnlyInLocal => scope.Local?
  }

  lemma EligibleUnchanged(before: seq<Frame>, after: seq<Frame>)
    requires |before| == |after| && forall k :: 0 <= k < |before| ==> before[k].scope == after[k].scope
    ensures forall k, policy :: 0 <= k < |before| ==> Eligible(before, k, policy) == Eligible(after, k, policy)
  {
  }

  /** Replacing the bindings of frame `k` leaves what the other frames bind, and which frames a
      policy consults. */
  lemma OneFrameChanged(before: seq<Frame>, after: seq<Frame>, k: nat, name: string, policy: Policy)
    requires k < |before| == |after| && after == before[k := before[k].(vars := after[k].vars)]
    ensures Eligible(after, k, policy) == Eligible(before, k, policy)
    ensures forall j :: 0 <= j < |before| && j != k ==>
              Binds(after, name, policy, j) == Binds(before, name, policy, j)
  {
    EligibleUnchanged(before, after);
  }

  /** A lookup is decided by the topmost eligible frame that binds the name. */
  lemma FindIs(scopes: seq<Frame>, name: string, policy: Policy, k: nat)
    requires k < |scopes| && Binds(scopes, name, policy, k)
    requires forall j :: k < j < |scopes| ==> !Binds(scopes, name, policy, j)
    ensures Find(scopes, name, policy) == Some(k)
  {
  }

  /** Changing one frame's bindings of one name leaves every lookup of other names alone. */
  lemma OthersUnchanged(before: seq<Frame>, after: seq<Frame>, name: string, other: string, policy: Policy)
    requires |before| == |after| && other != name
    requires forall k :: 0 <= k < |before| ==>
               before[k].scope == after[k].scope && Entry(before[k].vars, other) == Entry(after[k].vars, other)
    ensures Visible(after, other, policy) == Visible(before, other, policy)
  {
    EligibleUnchanged(before, after);
    var r := Find(before, other, policy);
    assert forall k :: 0 <= k < |before| ==> Binds(before, other, policy, k) == Binds(after, other, policy, k) by {
      forall k | 0 <= k < |before|
        ensures Binds(before, other, policy, k) == Binds(after, other, policy, k)
      {
        assert Entry(before[k].vars, other) == Entry(after[k].vars, other);
      }
    }
    if r.Some? {
      FindIs(after, other, policy, r.value);
      assert Entry(before[r.value].vars, other) == Entry(after[r.value].vars, other);
    }
  }

  /** After a successful update the same-policy lookup finds the new value exactly when the
      variable was there to update or the creation scope is one the policy consults. */
  lemma UpdateThenLookup(e: Env, name: string, value: string, updater: Updater, policy: Policy, scope: Scope)
    requires UpdateOrAdd(e, name, value, updater, policy, scope).1.Ok?
    ensures var e' := UpdateOrAdd(e, name, value, updater, policy, scope).0;
            var found := Visible(e.scopes, name, policy);
            var v := Assigned(e, if found.Some? then found.value else PLACEHOLDER, value, updater).0;
            if found.Some? then Visible(e'.scopes, name, policy) == Some(v)
            else if Coherent(policy, scope) then Visible(e'.scopes, name, policy) == Some(Exported(e, v))
            else Visible(e'.scopes, name, policy) == None
  {
    var after := UpdateOrAdd(e, name, value, updater, policy, scope).0.scopes;
    var found := Find(e.scopes, name, policy);
    if found.Some? {
      OneFrameChanged(e.scopes, after, found.value, name, policy);
      FindIs(after, name, policy, found.value);
    } else {
      var k := TopOf(e.scopes, scope).value;
      OneFrameChanged(e.scopes, after, k, name, policy);
      if Coherent(policy, scope) {
        CoherentEligible(e.scopes, policy, scope);
        FindIs(after, name, policy, k);
      } else {
        assert !Eligible(after, k, policy);
        assert forall j :: 0 <= j < |after| ==> !Binds(after, name, policy, j);
      }
    }
  }

  lemma CoherentEligible(scopes: seq<Frame>, policy: Policy, scope: Scope)
    requires Coherent(policy, scope) && TopOf(scopes, scope).Some?
    ensures Eligible(scopes, TopOf(scopes, scope).value, policy)
  {
  }

  /** The variable that an assignment hands to the caller's own change: the old one, or a blank one,
      with the new value, exported if it was or if that is the shell's mode. */
  predicate IsAssigned(e: Env, old': Option<Variable>, value: string, v: Variable) {
    && v.value == Some(value)
    && (v.exported <==> e.exportOnModification || (old'.Some? && old'.value.exported))
    && (v.readonly <==> old'.Some? && old'.value.readonly)
  }

  /** What comes of an update: a readonly variable refuses it and stays as it is; otherwise the
      caller's change decides, on a variable that is there even after the fact; a new one also needs
      a scope to live in. */
  lemma UpdateOutcome(e: Env, name: string, value: string, updater: Updater, policy: Policy, scope: Scope)
      returns (v: Variable)
    ensures IsAssigned(e, Visible(e.scopes, name, policy), value, v)
    ensures var (e', r) := UpdateOrAdd(e, name, value, updater, policy, scope);
            match Visible(e.scopes, name, policy)
            case Some(old') =>
              if old'.readonly then e' == e && r == Err(ReadonlyVariable)
              else
                && Visible(e'.scopes, name, policy) == Some(updater(v).0)
                && r == if updater(v).1 then Ok(()) else Err(UpdateFailed)
            case None =>
              if !updater(v).1 then e' == e && r == Err(UpdateFailed)
              else if TopOf(e.scopes, scope) == None then e' == e && r == Err(MissingScopeForNewVariable)
              else
                var new' := updater(v).0;
                && r == Ok(())
                && Entry(e'.scopes[TopOf(e.scopes, scope).value].vars, name)
                   == Some(new'.(exported := new'.exported || e.exportOnModification))
  {
    var found := Visible(e.scopes, name, policy);
    v := Variable(Some(value), e.exportOnModification || (found.Some? && found.value.exported),
                  found.Some? && found.value.readonly);
    var e' := UpdateOrAdd(e, name, value, updater, policy, scope).0;
    if found.Some? && !found.value.readonly {
      var k := Find(e.scopes, name, policy).value;
      OneFrameChanged(e.scopes, e'.scopes, k, name, policy);
      FindIs(e'.scopes, name, policy, k);
    }
  }

  /** What comes of adding a variable: it is in the topmost scope of its type, whatever was there. */
  lemma AddOutcome(e: Env, name: string, v: Variable, scope: Scope)
    ensures var (e', r) := Add(e, name, v, scope);
            match TopOf(e.scopes, scope)
            case None => e' == e && r == Err(MissingScopeForNewVariable)
            case Some(k) =>
              && r == Ok(()) && |e'.scopes| == |e.scopes|
              && Entry(e'.scopes[k].vars, name) == Some(v.(exported := v.exported || e.exportOnModification))
              && forall j :: 0 <= j < |e.scopes| && j != k ==> e'.scopes[j] == e.scopes[j]
  {
  }

  /** What comes of an unset: the variable that was visible, unless it is readonly. */
  lemma UnsetOutcome(e: Env, name: string)
    ensures var (e', r) := Unset(e, name);
            match Visible(e.scopes, name, Anywhere)
            case None => e' == e && r == Ok(None)
            case Some(v) => if v.readonly then e' == e && r == Err(ReadonlyVariable) else r == Ok(Some(v))
  {
  }

  /** An update, successful or not, never changes what any policy sees of another name. */
  lemma UpdateKeepsOthers(e: Env, name: string, value: string, updater: Updater, policy: Policy, scope: Scope,
                          other: string, lookup: Policy)
    requires other != name
    ensures Visible(UpdateOrAdd(e, name, value, updater, policy, scope).0.scopes, other, lookup)
            == Visible(e.scopes, other, lookup)
  {
    hide FindBelow, TopBelow, Visible;
    var after := UpdateOrAdd(e, name, value, updater, policy, scope).0.scopes;
    assert |after| == |e.scopes|;
    OthersUnchanged(e.scopes, after, name, other, lookup);
  }

  // ----- Unsetting -----

  /** Unsetting a name that the current local frame binds leaves a placeholder: every lookup
      from here on sees an unset variable, the frames below are untouched, and the outer
      binding is back once the frame is popped. */
  lemma UnsetCurrentLocalHides(e: Env, name: string, k: nat)
    requires k < |e.scopes| && Find(e.scopes, name, Anywhere) == Some(k) && IsCurrentLocal(e.scopes, k)
    requires !e.scopes[k].vars[name].readonly
    ensures var e' := Unset(e, name).0;
            && Visible(e'.scopes, name, Anywhere) == Some(PLACEHOLDER)
            && e'.scopes[..k] == e.scopes[..k] && e'.entryCount == e.entryCount
            && Visible(e'.scopes[..k], name, Anywhere) == Visible(e.scopes[..k], name, Anywhere)
            && Unset(e', name).0 == e'
  {
    var e' := Unset(e, name).0;
    OneFrameChanged(e.scopes, e'.scopes, k, name, Anywhere);
    FindIs(e'.scopes, name, Anywhere, k);
    EligibleUnchanged(e.scopes, e'.scopes);
    assert Eligible(e.scopes, k, OnlyInCurrentLocal) && Eligible(e'.scopes, k, OnlyInCurrentLocal);
    assert e'.scopes[k].vars[name := PLACEHOLDER] == e'.scopes[k].vars;
    assert SetVar(e'.scopes, k, name, PLACEHOLDER) == e'.scopes;
  }

  /** Unsetting a name found anywhere else removes that one binding: the next lower binding,
      if there is one, becomes visible. */
  lemma UnsetReveals(e: Env, name: string, k: nat)
    requires k < |e.scopes| && Find(e.scopes, name, Anywhere) == Some(k) && !IsCurrentLocal(e.scopes, k)
    requires !e.scopes[k].vars[name].readonly
    ensures Visible(Unset(e, name).0.scopes, name, Anywhere) == Visible(e.scopes[..k], name, Anywhere)
  {
    var after, below := Unset(e, name).0.scopes, e.scopes[..k];
    OneFrameChanged(e.scopes, after, k, name, Anywhere);
    assert forall j :: k <= j < |after| ==> !Binds(after, name, Anywhere, j);
    assert forall j :: 0 <= j < k ==> after[j] == below[j];
    var r := Find(below, name, Anywhere);
    if r.Some? {
      assert Binds(after, name, Anywhere, r.value);
      forall j | r.value < j < |after|
        ensures !Binds(after, name, Anywhere, j)
      {
        assert j < k ==> !Binds(below, name, Anywhere, j);
      }
      FindIs(after, name, Anywhere, r.value);
    } else {
      forall j | 0 <= j < |after|
        ensures !Binds(after, name, Anywhere, j)
      {
        assert j < k ==> !Binds(below, name, Anywhere, j);
      }
    }
  }

  // ----- Runs -----

  datatype Op =
    | PushOp(scope: Scope)
    | PopOp(scope: Scope)
    | UnsetOp(name: string)
    | AddOp(name: string, v: Variable, scope: Scope)
    | UpdateOp(name: string, value: string, updater: Updater, policy: Policy, scope: Scope)

  function Apply(op: Op, e: Env): Env {
    match op
    case PushOp(scope) => Push(e, scope)
    case PopOp(scope) => Pop(e, scope).0
    case UnsetOp(name) => Unset(e, name).0
    case AddOp(name, v, scope) => Add(e, name, v, scope).0
    case UpdateOp(name, value, updater, policy, scope) => UpdateOrAdd(e, name, value, updater, policy, scope).0
  }

  function Run(ops: seq<Op>, e: Env): Env {
    if ops == [] then e else Run(ops[1..], Apply(ops[0], e))
  }

  function Total(scopes: seq<Frame>): nat {
    if scopes == [] then 0 else Total(scopes[..|scopes| - 1]) + |scopes[|scopes| - 1].vars|
  }

  lemma {:induction false} TotalSet(scopes: seq<Frame>, k: nat, f: Frame)
    requires k < |scopes|
    ensures Total(scopes[k := f]) == Total(scopes) - |scopes[k].vars| + |f.vars|
  {
    var top := |scopes| - 1;
    if k == top {
      assert scopes[k := f][..top] == scopes[..top];
    } else {
      TotalSet(scopes[..top], k, f);
      assert scopes[k := f][..top] == scopes[..top][k := f];
    }
  }

  lemma RemoveSize(m: map<string, Variable>, name: string)
    requires name in m
    ensures |m - {name}| == |m| - 1
  {
    assert (m - {name}).Keys == m.Keys - {name};
    assert |m.Keys - {name}| == |m.Keys| - 1;
  }

  lemma AddSize(m: map<string, Variable>, name: string, v: Variable)
    ensures |m[name := v]| == |m| + if name in m then 0 else 1
  {
    assert m[name := v].Keys == m.Keys + {name};
  }

  /** How many bindings an operation throws away by popping a frame. */
  function Dropped(op: Op, e: Env): nat {
    if op.PopOp? && e.scopes != [] then |e.scopes[|e.scopes| - 1].vars| else 0
  }

  function DroppedBy(ops: seq<Op>, e: Env): nat {
    if ops == [] then 0 else Dropped(ops[0], e) + DroppedBy(ops[1..], Apply(ops[0], e))
  }

  /** One operation changes the count as it changes the number of bindings, except that a pop
      never lowers the count. */
  lemma StepCounts(op: Op, e: Env)
    requires Total(e.scopes) <= e.entryCount
    ensures var e' := Apply(op, e);
            e'.entryCount - Total(e'.scopes) == e.entryCount - Total(e.scopes) + Dropped(op, e)
  {
    var e' := Apply(op, e);
    match op
    case PushOp(scope) =>
      assert e'.scopes[..|e'.scopes| - 1] == e.scopes;
    case PopOp(_) =>
    case UnsetOp(name) =>
      UnsetCounts(e, name);
    case AddOp(name, v, scope) =>
      AddCounts(e, name, v, scope);
    case UpdateOp(name, value, updater, policy, scope) =>
      UpdateCounts(e, name, value, updater, policy, scope);
  }

  lemma UnsetCounts(e: Env, name: string)
    requires Total(e.scopes) <= e.entryCount
    ensures var e' := Unset(e, name).0;
            e'.entryCount - Total(e'.scopes) == e.entryCount - Total(e.scopes)
  {
    var r := Find(e.scopes, name, Anywhere);
    if r.Some? {
      var vars := e.scopes[r.value].vars;
      RemoveSize(vars, name);
      AddSize(vars, name, PLACEHOLDER);
      TotalSet(e.scopes, r.value, e.scopes[r.value].(vars := vars - {name}));
      TotalSet(e.scopes, r.value, e.scopes[r.value].(vars := vars[name := PLACEHOLDER]));
      TotalAtLeast(e.scopes, r.value);
    }
  }

  lemma UpdateCounts(e: Env, name: string, value: string, updater: Updater, policy: Policy, scope: Scope)
    ensures var e' := UpdateOrAdd(e, name, value, updater, policy, scope).0;
            e'.entryCount - Total(e'.scopes) == e.entryCount - Total(e.scopes)
  {
    var r := Find(e.scopes, name, policy);
    if r.Some? {
      var vars := e.scopes[r.value].vars;
      var v' := Assigned(e, vars[name], value, updater).0;
      AddSize(vars, name, v');
      TotalSet(e.scopes, r.value, e.scopes[r.value].(vars := vars[name := v']));
    } else {
      AddCounts(e, name, Assigned(e, PLACEHOLDER, value, updater).0, scope);
    }
  }

  lemma AddCounts(e: Env, name: string, v: Variable, scope: Scope)
    ensures var e' := Add(e, name, v, scope).0;
            e'.entryCount - Total(e'.scopes) == e.entryCount - Total(e.scopes)
  {
    var r := TopOf(e.scopes, scope);
    if r.Some? {
      var vars := e.scopes[r.value].vars;
      AddSize(vars, name, Exported(e, v));
      TotalSet(e.scopes, r.value, e.scopes[r.value].(vars := vars[name := Exported(e, v)]));
    }
  }

  lemma {:induction false} TotalAtLeast(scopes: seq<Frame>, k: nat)
    requires k < |scopes|
    ensures Total(scopes) >= |scopes[k].vars|
  {
    if k < |scopes| - 1 {
      TotalAtLeast(scopes[..|scopes| - 1], k);
    }
  }

  /** Over every run the count exceeds the number of bindings by exactly the bindings lost to
      pops; so it never falls below it, and the guard against decrementing zero never acts. */
  lemma {:induction false} RunCounts(ops: seq<Op>, e: Env)
    requires Total(e.scopes) <= e.entryCount
    ensures var e' := Run(ops, e);
            && e'.entryCount - Total(e'.scopes) == e.entryCount - Total(e.scopes) + DroppedBy(ops, e)
            && Total(e'.scopes) <= e'.entryCount
  {
    if ops != [] {
      StepCounts(ops[0], e);
      RunCounts(ops[1..], Apply(ops[0], e));
    }
  }

  /** The guard in unset: whenever a binding is found to remove, the count is positive. */
  lemma UnsetNeverBlocked(e: Env, name: string)
    requires Total(e.scopes) <= e.entryCount && Find(e.scopes, name, Anywhere).Some?
    ensures e.entryCount > 0
  {
    var k := Find(e.scopes, name, Anywhere).value;
    TotalAtLeast(e.scopes, k);
    RemoveSize(e.scopes[k].vars, name);
  }

  // ----- Scope discipline -----

  /** The operation changes nothing below frame `b`: it pops no frame at or below it, and the
      binding it reaches or creates is at or above it. */
  predicate StaysAbove(op: Op, e: Env, b: nat) {
    match op
    case PushOp(_) => true
    case PopOp(_) => |e.scopes| > b + 1
    case UnsetOp(name) => (match Find(e.scopes, name, Anywhere) case Some(k) => k >= b case None => true)
    case AddOp(_, _, scope) => (match TopOf(e.scopes, scope) case Some(k) => k >= b case None => true)
    case UpdateOp(name, _, _, policy, scope) =>
      (match Find(e.scopes, name, policy)
       case Some(k) => k >= b
       case None => match TopOf(e.scopes, scope) case Some(k) => k >= b case None => true)
  }

  predicate RunStaysAbove(ops: seq<Op>, e: Env, b: nat) {
    ops == [] || (StaysAbove(ops[0], e, b) && RunStaysAbove(ops[1..], Apply(ops[0], e), b))
  }

  lemma StepKeepsBelow(op: Op, e: Env, b: nat)
    requires b < |e.scopes| && StaysAbove(op, e, b)
    ensures var e' := Apply(op, e);
            && b < |e'.scopes| && e'.scopes[..b] == e.scopes[..b] && e'.scopes[b].scope == e.scopes[b].scope
            && e'.exportOnModification == e.exportOnModification
  {
  }

  lemma {:induction false} RunKeepsBelow(ops: seq<Op>, e: Env, b: nat)
    requires b < |e.scopes| && RunStaysAbove(ops, e, b)
    ensures var e' := Run(ops, e);
            b < |e'.scopes| && e'.scopes[..b] == e.scopes[..b] && e'.scopes[b].scope == e.scopes[b].scope
  {
    if ops != [] {
      StepKeepsBelow(ops[0], e, b);
      RunKeepsBelow(ops[1..], Apply(ops[0], e), b);
    }
  }

  /** What a function body does with its own variables: current-local updates, additions to the
      local scope, and properly nested pushes and pops. */
  predicate BalancedLocal(ops: seq<Op>, depth: nat) {
    if ops == [] then depth == 0
    else
      match ops[0]
      case PushOp(_) => BalancedLocal(ops[1..], depth + 1)
      case PopOp(_) => depth > 0 && BalancedLocal(ops[1..], depth - 1)
      case UnsetOp(_) => false
      case AddOp(_, _, scope) => scope.Local? && BalancedLocal(ops[1..], depth)
      case UpdateOp(_, _, _, policy, scope) =>
        policy.OnlyInCurrentLocal? && scope.Local? && BalancedLocal(ops[1..], depth)
  }

  lemma LocalStepStaysAbove(op: Op, e: Env, b: nat)
    requires b < |e.scopes| && e.scopes[b].scope.Local?
    requires !op.UnsetOp? && (op.PopOp? ==> |e.scopes| > b + 1)
    requires op.AddOp? ==> op.scope.Local?
    requires op.UpdateOp? ==> op.policy.OnlyInCurrentLocal? && op.scope.Local?
    ensures StaysAbove(op, e, b)
  {
    assert TopOf(e.scopes, Local).Some? && TopOf(e.scopes, Local).value >= b;
  }

  lemma StackHeight(op: Op, e: Env)
    ensures |Apply(op, e).scopes|
            == |e.scopes| + (if op.PushOp? then 1 else if op.PopOp? && e.scopes != [] then -1 else 0)
  {
  }

  lemma {:induction false} BalancedLocalRun(ops: seq<Op>, e: Env, b: nat, depth: nat)
    requires |e.scopes| == b + 1 + depth && e.scopes[b].scope.Local? && BalancedLocal(ops, depth)
    ensures RunStaysAbove(ops, e, b) && |Run(ops, e).scopes| == b + 1
  {
    if ops != [] {
      var op, e' := ops[0], Apply(ops[0], e);
      LocalStepStaysAbove(op, e, b);
      StepKeepsBelow(op, e, b);
      StackHeight(op, e);
      BalancedLocalRun(ops[1..], e', b, if op.PushOp? then depth + 1 else if op.PopOp? then depth - 1 else depth);
    }
  }

  /** Between a Local push and its pop, a balanced trace of current-local updates and additions
      restores the lower scopes exactly, and the pop finds the scope it expects. */
  lemma LocalScopeRestored(e: Env, body: seq<Op>)
    requires BalancedLocal(body, 0)
    ensures var (e', r) := Pop(Run(body, Push(e, Local)), Local);
            r == Ok(()) && e'.scopes == e.scopes
  {
    var inside, b := Push(e, Local), |e.scopes|;
    BalancedLocalRun(body, inside, b, 0);
    RunKeepsBelow(body, inside, b);
    assert inside.scopes[..b] == e.scopes;
  }

  /** The same for any trace, unsetting included, whose operations never reach below the pushed
      frame. */
  lemma ConfinedScopeRestored(e: Env, scope: Scope, body: seq<Op>)
    requires RunStaysAbove(body, Push(e, scope), |e.scopes|)
    requires |Run(body, Push(e, scope)).scopes| == |e.scopes| + 1
    ensures var (e', r) := Pop(Run(body, Push(e, scope)), scope);
            r == Ok(()) && e'.scopes == e.scopes
  {
    RunKeepsBelow(body, Push(e, scope), |e.scopes|);
    assert Push(e, scope).scopes[..|e.scopes|] == e.scopes;
  }
}
