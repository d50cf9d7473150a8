/** The `getopts` builtin: an option parser that yields one option per call and keeps its
    cursor in shell variables between calls. */
module GetOpts {
  import opened Wrappers
  import opened Numerals
  import opened Sequences

  const DEFAULT_NEXT_CHAR_INDEX: nat := 1

  // ----- Shell variables -----

  /** A variable: one of the four the builtin keeps its state in, or any other. */
  datatype Name = OPTIND | OPTARG | NEXT_CHAR | LAST_OPTIND | Other(text: string)

  function NameOf(s: string): Name {
    if s == "OPTIND" then OPTIND
    else if s == "OPTARG" then OPTARG
    else if s == "__GETOPTS_NEXT_CHAR" then NEXT_CHAR
    else if s == "__GETOPTS_LAST_OPTIND" then LAST_OPTIND
    else Other(s)
  }

  /** The value of OPTIND: 1 when it is unset or not a 32-bit number. */
  function OptIndOf(text: Option<string>): int {
    match text
    case Some(s) => (match ParseI32(s) case Some(n) => n case None => 1)
    case None => 1
  }

  function LastOptIndOf(text: Option<string>): Option<int> {
    match text
    case Some(s) => ParseI32(s)
    case None => None
  }

  function NextCharIndexOf(text: Option<string>): nat {
    match text
    case Some(s) => (match ParseUsize(s) case Some(n) => n case None => DEFAULT_NEXT_CHAR_INDEX)
    case None => DEFAULT_NEXT_CHAR_INDEX
  }

  /** Scalar shell variables, each name bound at most once; a readonly one, with or without a
      value, refuses to be assigned or unset. */
  datatype Vars = Vars(values: map<Name, string>, readonly: set<Name>) {
    function Str(name: Name): Option<string> {
      if name in values then Some(values[name]) else None
    }

    function Set(name: Name, value: string): Result<Vars, ()> {
      if name in readonly then Err(()) else Ok(this.(values := values[name := value]))
    }

    function Unset(name: Name): Result<Vars, ()> {
      if name in readonly then Err(()) else Ok(this.(values := values - {name}))
    }

    function OptInd(): int { OptIndOf(Str(OPTIND)) }

    function LastOptInd(): Option<int> { LastOptIndOf(Str(LAST_OPTIND)) }

    function NextCharIndex(): nat { NextCharIndexOf(Str(NEXT_CHAR)) }
  }

  predicate IsNameStart(c: char) {
    'a' <= c <= 'z' || 'A' <= c <= 'Z' || c == '_'
  }

  predicate ValidVariableName(s: string) {
    s != "" && IsNameStart(s[0]) && forall i :: 1 <= i < |s| ==> IsNameStart(s[i]) || IsDigit(s[i])
  }

  // ----- Option specifications -----

  /** Which option characters exist and which of them take an argument. */
  datatype OptionSpec = OptionSpec(defs: map<char, bool>, silentErrors: bool)

  ghost predicate IsFirstIndex(s: string, c: char, i: nat) {
    i < |s| && s[i] == c && forall k :: 0 <= k < i ==> s[k] != c
  }

  lemma FirstIndexExists(s: string, c: char)
    requires c in s
    ensures exists i: nat :: IsFirstIndex(s, c, i)
  {
    var i := 0;
    while s[i] != c
      invariant i < |s| && forall k :: 0 <= k < i ==> s[k] != c
      decreases |s| - i
    {
      assert exists k :: 0 <= k < |s| && s[k] == c;
      i := i + 1;
    }
    assert IsFirstIndex(s, c, i);
  }

  ghost function FirstIndex(s: string, c: char): (i: nat)
    requires c in s
    ensures IsFirstIndex(s, c, i)
  {
    FirstIndexExists(s, c);
    var i: nat :| IsFirstIndex(s, c, i);
    i
  }

  predicate FollowedByColon(s: string, i: nat) {
    i + 1 < |s| && s[i + 1] == ':'
  }

  /** What an optstring means: every character but `:` is an option, which takes an argument
      when its first occurrence is followed by `:`; a leading `:` asks for silent errors. */
  ghost function SpecOf(s: string): OptionSpec {
    OptionSpec(
      map c | c in s && c != ':' :: FollowedByColon(s, FirstIndex(s, c)),
      s != "" && s[0] == ':')
  }

  lemma FirstIndexOfPrefix(p: string, s: string, c: char)
    requires c in p && p <= s
    ensures FirstIndex(s, c) == FirstIndex(p, c)
  {
    var i, j := FirstIndex(p, c), FirstIndex(s, c);
    assert s[i] == p[i] == c;
    assert j < |p| ==> p[j] == s[j];
  }

  /** How one more character changes the meaning of an optstring. */
  lemma SpecExtend(p: string, c: char)
    ensures var (old', new') := (SpecOf(p).defs, SpecOf(p + [c]).defs);
            && new'.Keys == (if c == ':' then old'.Keys else old'.Keys + {c})
            && (forall d :: d in old' ==>
                  new'[d] == (old'[d] || (c == ':' && FirstIndex(p, d) + 1 == |p|)))
            && (c != ':' && c !in old' ==> !new'[c])
            && (forall d :: d in old' ==> FirstIndex(p + [c], d) == FirstIndex(p, d))
            && (c != ':' && c !in old' ==> FirstIndex(p + [c], c) == |p|)
  {
    forall d | d in p
      ensures FirstIndex(p + [c], d) == FirstIndex(p, d)
    {
      FirstIndexOfPrefix(p, p + [c], d);
    }
  }

  /** The scanner's state after the prefix `p`: what `p` means, and the option that a colon
      coming next would apply to. */
  ghost predicate Scanned(p: string, spec: OptionSpec, lastChar: Option<char>) {
    && spec == SpecOf(p)
    && (lastChar.Some? ==> lastChar.value in spec.defs)
    && (forall d :: d in spec.defs && FirstIndex(p, d) + 1 == |p| ==> lastChar == Some(d))
    && (lastChar.Some? && !spec.defs[lastChar.value] ==> FirstIndex(p, lastChar.value) + 1 == |p|)
  }

  function ScanStep(spec: OptionSpec, lastChar: Option<char>, c: char): (OptionSpec, Option<char>)
    requires lastChar.Some? ==> lastChar.value in spec.defs
  {
    if c == ':' then
      if lastChar.Some? then (spec.(defs := spec.defs[lastChar.value := true]), lastChar)
      else if spec.defs == map[] then (spec.(silentErrors := true), lastChar)
      else (spec, lastChar)
    else if c !in spec.defs then (spec.(defs := spec.defs[c := false]), Some(c))
    else (spec, None)
  }

  lemma SameSpec(a: OptionSpec, b: OptionSpec)
    requires a.defs.Keys == b.defs.Keys && a.silentErrors == b.silentErrors
    requires forall d :: d in a.defs ==> a.defs[d] == b.defs[d]
    ensures a == b
  {
  }

  lemma ScanColon(p: string, spec: OptionSpec, lastChar: Option<char>)
    requires Scanned(p, spec, lastChar)
    ensures ScanStep(spec, lastChar, ':').0 == SpecOf(p + ":")
  {
    SpecExtend(p, ':');
    if p != "" {
      assert p[0] in p && (p + ":")[0] == p[0];
      assert p[0] != ':' ==> p[0] in spec.defs;
    }
    SameSpec(ScanStep(spec, lastChar, ':').0, SpecOf(p + ":"));
  }

  lemma ScanLetter(p: string, spec: OptionSpec, lastChar: Option<char>, c: char)
    requires Scanned(p, spec, lastChar) && c != ':'
    ensures ScanStep(spec, lastChar, c).0 == SpecOf(p + [c])
  {
    SpecExtend(p, c);
    SameSpec(ScanStep(spec, lastChar, c).0, SpecOf(p + [c]));
  }

  lemma ScanStepKeeps(p: string, spec: OptionSpec, lastChar: Option<char>, c: char)
    requires Scanned(p, spec, lastChar)
    ensures var (spec', last') := ScanStep(spec, lastChar, c); Scanned(p + [c], spec', last')
  {
    if c == ':' { ScanColon(p, spec, lastChar); } else { ScanLetter(p, spec, lastChar, c); }
    SpecExtend(p, c);
  }

  lemma ScannedMeans(p: string, spec: OptionSpec, lastChar: Option<char>)
    requires Scanned(p, spec, lastChar)
    ensures spec == SpecOf(p) && (lastChar.Some? ==> lastChar.value in spec.defs)
  {
  }

  lemma ScanStarts()
    ensures Scanned("", OptionSpec(map[], false), None)
  {
  }

  /** Reads an optstring left to right. */
  method ParseOptionSpec(spec: string) returns (r: OptionSpec)
    ensures r == SpecOf(spec)
  {
    hide Scanned, SpecOf;
    var defs: map<char, bool> := map[];
    var silentErrors := false;
    var lastChar: Option<char> := None;
    ScanStarts();
    assert spec[..0] == "";
    for i := 0 to |spec|
      invariant Scanned(spec[..i], OptionSpec(defs, silentErrors), lastChar)
    {
      var c := spec[i];
      ScannedMeans(spec[..i], OptionSpec(defs, silentErrors), lastChar);
      ScanStepKeeps(spec[..i], OptionSpec(defs, silentErrors), lastChar, c);
      assert spec[..i + 1] == spec[..i] + [c];
      if c == ':' {
        if lastChar.Some? {
          defs := defs[lastChar.value := true];
        } else if defs == map[] {
          silentErrors := true;
        }
      } else if c !in defs {
        defs := defs[c := false];
        lastChar := Some(c);
      } else {
        lastChar := None;
      }
    }
    assert spec[..|spec|] == spec;
    ScannedMeans(spec, OptionSpec(defs, silentErrors), lastChar);
    r := OptionSpec(defs, silentErrors);
  }

  // ----- One call -----

  datatype GetOptsResult = GetOptsResult(value: string, optarg: Option<string>, optind: nat, exitCode: nat)

  /** How a call ends: with an exit code, or refused by a readonly variable. */
  datatype Completion = Exited(code: nat) | Refused

  predicate IsOption(arg: string) {
    |arg| >= 2 && arg[0] == '-' && arg != "--"
  }

  /** The argument of an option that takes one: the variable's value, OPTARG, and the index of
      the last argument used. */
  function ResolveArgument(spec: OptionSpec, args: seq<string>, nextIndex: nat, j: nat): (string, Option<string>, nat)
    requires 1 <= nextIndex <= |args| && j < |args[nextIndex - 1]|
  {
    var arg := args[nextIndex - 1];
    if j + 1 < |arg| then ([arg[j]], Some(arg[j + 1..]), nextIndex)
    else if nextIndex < |args| then ([arg[j]], Some(args[nextIndex]), nextIndex + 1)
    else if spec.silentErrors then (":", Some([arg[j]]), nextIndex)
    else ("?", None, nextIndex)
  }

  /** The character index a call resumes at: a stale index starts the argument over. */
  function ResumeAt(next: nat, arg: string): (j: nat)
    requires IsOption(arg)
    ensures j < |arg|
  {
    if next < |arg| then next else DEFAULT_NEXT_CHAR_INDEX
  }

  function ResumeIndex(vars: Vars, arg: string): (j: nat)
    requires IsOption(arg)
    ensures j < |arg|
  {
    ResumeAt(vars.NextCharIndex(), arg)
  }

  /** The variables of a shell, wherever it keeps them: how one is read, assigned and unset. */
  datatype Access<!S> = Access(
    look: (S, Name) -> Option<string>,
    assign: (S, Name, string) -> Result<S, ()>,
    remove: (S, Name) -> Result<S, ()>)
  {
    function ParseNext(spec: OptionSpec, args: seq<string>, s: S, nextIndex: nat): (S, Option<GetOptsResult>)
      requires nextIndex >= 1
    {
      if nextIndex > |args| then (s, Some(GetOptsResult("?", None, |args| + 1, 1)))
      else
        var arg := args[nextIndex - 1];
        if !IsOption(arg) then
          (s, Some(GetOptsResult("?", None, if arg == "--" then nextIndex + 1 else nextIndex, 1)))
        else
          var j := ResumeAt(NextCharIndexOf(look(s, NEXT_CHAR)), arg);
          var c := arg[j];
          var takesArgument := c in spec.defs && spec.defs[c];
          var (value, optarg, last) :=
            if takesArgument then ResolveArgument(spec, args, nextIndex, j)
            else if c in spec.defs then ([c], None, nextIndex)
            else ("?", if spec.silentErrors then Some([c]) else None, nextIndex);
          var finished := takesArgument || j + 1 == |arg|;
          var stored := if finished then remove(s, NEXT_CHAR) else assign(s, NEXT_CHAR, NatToString(j + 1));
          if stored.Err? then (s, None)
          else (stored.value, Some(GetOptsResult(value, optarg, if finished then last + 1 else last, 0)))
    }

    function UpdateVariables(s: S, name: Name, result: GetOptsResult): (S, Completion) {
      var s1 := assign(s, name, result.value);
      if s1.Err? then (s, Refused)
      else
        var s2 :=
          if result.optarg.Some? then assign(s1.value, OPTARG, result.optarg.value) else remove(s1.value, OPTARG);
        if s2.Err? then (s1.value, Refused)
        else
          var s3 := assign(s2.value, OPTIND, NatToString(result.optind));
          if s3.Err? then (s2.value, Refused)
          else
            var s4 := assign(s3.value, LAST_OPTIND, NatToString(result.optind));
            if s4.Err? then (s3.value, Refused) else (s4.value, Exited(result.exitCode))
    }

    function Call(spec: OptionSpec, args: seq<string>, name: string, s: S): (S, Completion) {
      if !ValidVariableName(name) then (s, Exited(1))
      else
        var optind := OptIndOf(look(s, OPTIND));
        var cleared := if LastOptIndOf(look(s, LAST_OPTIND)) != Some(optind) then remove(s, NEXT_CHAR) else Ok(s);
        if cleared.Err? then (s, Refused)
        else
          var (parsed, result) := ParseNext(spec, args, cleared.value, Max(optind, 1));
          if result.None? then (parsed, Refused) else UpdateVariables(parsed, NameOf(name), result.value)
    }

    function Observe(s: S, name: Name, completion: Completion): Observed {
      var value := match look(s, name) case Some(text) => text case None => "";
      Observed(Event(value, look(s, OPTARG)), OptIndOf(look(s, OPTIND)), completion)
    }

    /** `while getopts ...` with a bound on the number of calls: the events of the successful
        calls, and what the call that ended the run left behind. */
    function Loop(spec: OptionSpec, args: seq<string>, name: string, s: S, calls: nat): Run
      decreases calls
    {
      var (after, c) := Call(spec, args, name, s);
      var seen := Observe(after, NameOf(name), c);
      if c != Exited(0) || calls == 0 then Run([], seen)
      else
        var rest := Loop(spec, args, name, after, calls - 1);
        Run([seen.event] + rest.events, rest.last)
    }
  }

  const FLAT: Access<Vars> := Access(
    (vars: Vars, name: Name) => vars.Str(name),
    (vars: Vars, name: Name, value: string) => vars.Set(name, value),
    (vars: Vars, name: Name) => vars.Unset(name))

  function ParseNext(spec: OptionSpec, args: seq<string>, vars: Vars, nextIndex: nat): (Vars, Option<GetOptsResult>)
    requires nextIndex >= 1
  {
    FLAT.ParseNext(spec, args, vars, nextIndex)
  }

  function UpdateVariables(vars: Vars, name: Name, result: GetOptsResult): (Vars, Completion) {
    FLAT.UpdateVariables(vars, name, result)
  }

  function Call(spec: OptionSpec, args: seq<string>, name: string, vars: Vars): (Vars, Completion) {
    FLAT.Call(spec, args, name, vars)
  }

  /** The shell as the builtin sees it. */
  class Shell {
    var vars: Vars
    var positional: seq<string>

    constructor (vars: Vars, positional: seq<string>)
      ensures this.vars == vars && this.positional == positional
    {
      this.vars, this.positional := vars, positional;
    }

    method TrySet(name: Name, value: string) returns (ok: bool)
      modifies this`vars
      ensures var r := old(vars).Set(name, value); ok == r.Ok? && vars == if ok then r.value else old(vars)
    {
      ok := name !in vars.readonly;
      if ok {
        vars := vars.(values := vars.values[name := value]);
      }
    }

    method TryUnset(name: Name) returns (ok: bool)
      modifies this`vars
      ensures var r := old(vars).Unset(name); ok == r.Ok? && vars == if ok then r.value else old(vars)
    {
      ok := name !in vars.readonly;
      if ok {
        vars := vars.(values := vars.values - {name});
      }
    }

    method Execute(optionsString: string, variableName: string, args: seq<string>) returns (r: Completion)
      modifies this`vars
      ensures (vars, r)
              == Call(SpecOf(optionsString), if args != [] then args else positional, variableName, old(vars))
    {
      if !ValidVariableName(variableName) {
        return Exited(1);
      }
      var spec := ParseOptionSpec(optionsString);
      var nextIndexSigned := vars.OptInd();
      if vars.LastOptInd() != Some(nextIndexSigned) {
        var ok := TryUnset(NEXT_CHAR);
        if !ok {
          return Refused;
        }
      }
      var nextIndex := Max(nextIndexSigned, 1);
      var argsToParse := if args != [] then args else positional;
      var result := ParseNextOption(spec, argsToParse, nextIndex);
      if result.None? {
        return Refused;
      }
      r := UpdateShell(NameOf(variableName), result.value);
    }

    method ParseNextOption(spec: OptionSpec, args: seq<string>, nextIndex: nat) returns (r: Option<GetOptsResult>)
      requires nextIndex >= 1
      modifies this`vars
      ensures (vars, r) == ParseNext(spec, args, old(vars), nextIndex)
    {
      hide NatToString, ParseInt;
      if nextIndex > |args| {
        return Some(GetOptsResult("?", None, |args| + 1, 1));
      }
      var arg := args[nextIndex - 1];
      if arg == "" || arg[0] != '-' || arg == "--" || arg == "-" {
        return Some(GetOptsResult("?", None, if arg == "--" then nextIndex + 1 else nextIndex, 1));
      }

      var nextCharIndex := vars.NextCharIndex();
      if nextCharIndex >= |arg| {
        nextCharIndex := DEFAULT_NEXT_CHAR_INDEX;
      }
      var c := arg[nextCharIndex];
      var isLastChar := nextCharIndex == |arg| - 1;
      var last := nextIndex;

      var value, optarg := [c], None;
      if c in spec.defs {
        if spec.defs[c] {
          if isLastChar {
            if nextIndex >= |args| {
              value, optarg := if spec.silentErrors then ":" else "?", if spec.silentErrors then Some([c]) else None;
            } else {
              last := last + 1;
              optarg := Some(args[last - 1]);
            }
          } else {
            optarg := Some(arg[nextCharIndex + 1..]);
          }
          isLastChar := true;
        }
      } else {
        value, optarg := "?", if spec.silentErrors then Some([c]) else None;
      }

      var ok;
      var optind := last;
      if isLastChar {
        ok := TryUnset(NEXT_CHAR);
        optind := last + 1;
      } else {
        ok := TrySet(NEXT_CHAR, NatToString(nextCharIndex + 1));
      }
      if !ok {
        return None;
      }
      r := Some(GetOptsResult(value, optarg, optind, 0));
    }

    method UpdateShell(name: Name, result: GetOptsResult) returns (r: Completion)
      modifies this`vars
      ensures (vars, r) == UpdateVariables(old(vars), name, result)
    {
      var ok := TrySet(name, result.value);
      if !ok { return Refused; }
      if result.optarg.Some? {
        ok := TrySet(OPTARG, result.optarg.value);
      } else {
        ok := TryUnset(OPTARG);
      }
      if !ok { return Refused; }
      ok := TrySet(OPTIND, NatToString(result.optind));
      if !ok { return Refused; }
      ok := TrySet(LAST_OPTIND, NatToString(result.optind));
      if !ok { return Refused; }
      r := Exited(result.exitCode);
    }
  }

  // ----- The one-pass parse -----

  /** What a script sees after a successful call: the target variable and OPTARG. */
  datatype Event = Event(value: string, optarg: Option<string>)

  /** All the events of a command line, and the 1-based index of its first operand. */
  datatype Parsed = Parsed(events: seq<Event>, operand: nat) {
    function After(e: Event): Parsed { Parsed([e] + events, operand) }
  }

  predicate TakesArgument(spec: OptionSpec, c: char) {
    c in spec.defs && spec.defs[c]
  }

  /** The event of an option character that takes no argument. */
  function PlainEvent(spec: OptionSpec, c: char): Event {
    if c in spec.defs then Event([c], None)
    else Event("?", if spec.silentErrors then Some([c]) else None)
  }

  function MissingEvent(spec: OptionSpec, c: char): Event {
    if spec.silentErrors then Event(":", Some([c])) else Event("?", None)
  }

  /** Parses the arguments from number `i` on (POSIX XBD 12.2): options up to the first operand
      or just past `--`. */
  function Parse(spec: OptionSpec, args: seq<string>, i: nat): Parsed
    decreases |args| - i, 0, 0
  {
    if i >= |args| then Parsed([], |args| + 1)
    else if args[i] == "--" then Parsed([], i + 2)
    else if !IsOption(args[i]) then Parsed([], i + 1)
    else ParseCluster(spec, args, i, 1)
  }

  /** Parses the option characters of argument `i` from character `j` on, and what follows. */
  function ParseCluster(spec: OptionSpec, args: seq<string>, i: nat, j: nat): Parsed
    requires i < |args| && j < |args[i]|
    decreases |args| - i - 1, 1, |args[i]| - j
  {
    var c, rest := args[i][j], args[i][j + 1..];
    if TakesArgument(spec, c) then
      if rest != "" then Parse(spec, args, i + 1).After(Event([c], Some(rest)))
      else if i + 1 < |args| then Parse(spec, args, i + 2).After(Event([c], Some(args[i + 1])))
      else Parsed([MissingEvent(spec, c)], |args| + 1)
    else if rest == "" then Parse(spec, args, i + 1).After(PlainEvent(spec, c))
    else ParseCluster(spec, args, i, j + 1).After(PlainEvent(spec, c))
  }

  // ----- Repeated calls are the one-pass parse -----

  /** The machine-integer bounds within which OPTIND and the character index are stored and
      read back unchanged. */
  predicate FitsMachine(args: seq<string>) {
    |args| < I32_MAX && forall i :: 0 <= i < |args| ==> |args[i]| <= USIZE_MAX
  }

  /** The target is a usable name of its own, and nothing a call writes is readonly. */
  predicate Usable(vars: Vars, name: string) {
    && ValidVariableName(name)
    && NameOf(name).Other?
    && vars.readonly !! {NameOf(name), OPTIND, OPTARG, NEXT_CHAR, LAST_OPTIND}
  }

  /** The next call will look at argument `i`, and at its character `j` if it is an option. */
  predicate Ready(vars: Vars, args: seq<string>, i: nat, j: nat) {
    && vars.OptInd() == i + 1
    && (i < |args| && IsOption(args[i]) ==>
          j == if vars.LastOptInd() == Some(i + 1) then ResumeIndex(vars, args[i]) else DEFAULT_NEXT_CHAR_INDEX)
  }

  /** A call's outcome as the caller can observe it. */
  datatype Observed = Observed(event: Event, optind: int, completion: Completion)

  function Observe(vars: Vars, name: Name, completion: Completion): Observed {
    FLAT.Observe(vars, name, completion)
  }

  /** Where the cursor goes after the option character at (i, j). */
  function Advance(spec: OptionSpec, args: seq<string>, i: nat, j: nat): (nat, nat)
    requires i < |args| && j < |args[i]|
  {
    if TakesArgument(spec, args[i][j]) then
      (if j + 1 == |args[i]| && i + 1 < |args| then i + 2 else i + 1, 1)
    else if j + 1 == |args[i]| then (i + 1, 1)
    else (i, j + 1)
  }

  /** When nothing is refused, all four variables are written. */
  function Updated(values: map<Name, string>, name: Name, result: GetOptsResult): map<Name, string> {
    var v1 := values[name := result.value];
    var v2 := if result.optarg.Some? then v1[OPTARG := result.optarg.value] else v1 - {OPTARG};
    v2[OPTIND := NatToString(result.optind)][LAST_OPTIND := NatToString(result.optind)]
  }

  lemma UpdateSucceeds(vars: Vars, name: Name, result: GetOptsResult)
    requires vars.readonly !! {name, OPTIND, OPTARG, LAST_OPTIND}
    ensures UpdateVariables(vars, name, result)
         == (Vars(Updated(vars.values, name, result), vars.readonly), Exited(result.exitCode))
  {
  }

  lemma UpdatedReads(values: map<Name, string>, name: Name, result: GetOptsResult)
    requires name.Other?
    ensures var (v, optind) := (Updated(values, name, result), NatToString(result.optind));
            && name in v && v[name] == result.value
            && OPTIND in v && v[OPTIND] == optind
            && LAST_OPTIND in v && v[LAST_OPTIND] == optind
            && (OPTARG in v <==> result.optarg.Some?) && (OPTARG in v ==> v[OPTARG] == result.optarg.value)
            && (NEXT_CHAR in v <==> NEXT_CHAR in values) && (NEXT_CHAR in v ==> v[NEXT_CHAR] == values[NEXT_CHAR])
  {
  }

  lemma UpdateObserved(vars: Vars, name: string, result: GetOptsResult)
    requires Usable(vars, name) && result.optind <= I32_MAX
    ensures var (v, c) := UpdateVariables(vars, NameOf(name), result);
            && Observe(v, NameOf(name), c)
               == Observed(Event(result.value, result.optarg), result.optind, Exited(result.exitCode))
            && v.readonly == vars.readonly
            && v.LastOptInd() == Some(result.optind)
            && v.Str(NEXT_CHAR) == vars.Str(NEXT_CHAR)
  {
    hide UpdateVariables, Updated, NameOf, ParseInt, NatToString;
    UpdateSucceeds(vars, NameOf(name), result);
    UpdatedReads(vars.values, NameOf(name), result);
    ParseIntToString(result.optind, I32_MIN, I32_MAX);
  }

  /** The variables a call works on once a change of OPTIND made elsewhere has been noticed. */
  function Cleared(vars: Vars): Vars {
    if vars.LastOptInd() != Some(vars.OptInd()) then vars.(values := vars.values - {NEXT_CHAR}) else vars
  }

  lemma CallUnfolds(spec: OptionSpec, args: seq<string>, name: string, vars: Vars)
    requires Usable(vars, name) && vars.OptInd() >= 1
    ensures var (parsed, result) := ParseNext(spec, args, Cleared(vars), vars.OptInd());
            Call(spec, args, name, vars)
            == if result.None? then (parsed, Refused) else UpdateVariables(parsed, NameOf(name), result.value)
  {
  }

  /** At an operand or past the end a call reports 1 and clears OPTARG; OPTIND says where the
      operands start. */
  lemma CallAtEnd(spec: OptionSpec, args: seq<string>, name: string, vars: Vars, i: nat)
    requires Usable(vars, name) && FitsMachine(args) && vars.OptInd() == i + 1
    requires i >= |args| || !IsOption(args[i])
    ensures var (v, c) := Call(spec, args, name, vars);
            Observe(v, NameOf(name), c) == Observed(Event("?", None), Parse(spec, args, i).operand, Exited(1))
            && Parse(spec, args, i).events == []
  {
    CallUnfolds(spec, args, name, vars);
    var operand := if i >= |args| then |args| + 1 else if args[i] == "--" then i + 2 else i + 1;
    UpdateObserved(Cleared(vars), name, GetOptsResult("?", None, operand, 1));
  }

  /** On an option character a call succeeds, yields that character's event and moves the
      cursor forward. */
  lemma CallAtOption(spec: OptionSpec, args: seq<string>, name: string, vars: Vars, i: nat, j: nat)
    requires Usable(vars, name) && FitsMachine(args) && Ready(vars, args, i, j)
    requires i < |args| && IsOption(args[i])
    ensures j < |args[i]|
    ensures var (v, c) := Call(spec, args, name, vars);
            var (i', j') := Advance(spec, args, i, j);
            && c == Exited(0)
            && ParseCluster(spec, args, i, j).events[0] == Observe(v, NameOf(name), c).event
            && Usable(v, name) && Ready(v, args, i', j')
            && (i < i' || (i == i' && j < j'))
  {
    hide UpdateVariables, Call, ParseNext, ParseCluster, NatToString, ParseInt;
    var cleared := Cleared(vars);
    ClusterHead(spec, args, i, j, cleared);
    CallUnfolds(spec, args, name, vars);
    var (stored, result) := ParseNext(spec, args, cleared, i + 1);
    UpdateObserved(stored, name, result.value);
    ParseIntToString(j + 1, 0, USIZE_MAX);
  }

  /** What the middle of a call does at an option character, before the variables are updated. */
  lemma ClusterHead(spec: OptionSpec, args: seq<string>, i: nat, j: nat, vars: Vars)
    requires i < |args| && IsOption(args[i]) && j == ResumeIndex(vars, args[i])
    requires NEXT_CHAR !in vars.readonly
    ensures var (stored, result) := ParseNext(spec, args, vars, i + 1);
            && result.Some?
            && Event(result.value.value, result.value.optarg) == ParseCluster(spec, args, i, j).events[0]
            && result.value.optind == Advance(spec, args, i, j).0 + 1
            && result.value.exitCode == 0
            && stored.readonly == vars.readonly
            && stored.Str(NEXT_CHAR) == if Advance(spec, args, i, j).0 == i then Some(NatToString(j + 1)) else None
  {
  }

  // ----- Whole runs -----

  datatype Run = Run(events: seq<Event>, last: Observed)

  function Loop(spec: OptionSpec, args: seq<string>, name: string, vars: Vars, calls: nat): Run {
    FLAT.Loop(spec, args, name, vars, calls)
  }

  /** What the loop finds from a cursor on. */
  function ParseFrom(spec: OptionSpec, args: seq<string>, i: nat, j: nat): Parsed
    requires i < |args| && IsOption(args[i]) ==> j < |args[i]|
  {
    if i < |args| && IsOption(args[i]) then ParseCluster(spec, args, i, j) else Parse(spec, args, i)
  }

  lemma ParseFromAdvance(spec: OptionSpec, args: seq<string>, i: nat, j: nat)
    requires i < |args| && IsOption(args[i]) && 1 <= j < |args[i]|
    ensures var (i', j') := Advance(spec, args, i, j);
            && (i' < |args| && IsOption(args[i']) ==> 1 <= j' < |args[i']|)
            && ParseCluster(spec, args, i, j).events != []
            && ParseCluster(spec, args, i, j)
               == ParseFrom(spec, args, i', j').After(ParseCluster(spec, args, i, j).events[0])
  {
    var (i', j') := Advance(spec, args, i, j);
    if i' > i && i' < |args| && IsOption(args[i']) {
      assert Parse(spec, args, i') == ParseCluster(spec, args, i', 1);
    }
  }

  lemma {:induction false} LoopFrom(spec: OptionSpec, args: seq<string>, name: string, vars: Vars,
                                    i: nat, j: nat, calls: nat)
    requires Usable(vars, name) && FitsMachine(args) && Ready(vars, args, i, j)
    requires i < |args| && IsOption(args[i]) ==> 1 <= j < |args[i]|
    requires |ParseFrom(spec, args, i, j).events| <= calls
    ensures var p := ParseFrom(spec, args, i, j);
            Loop(spec, args, name, vars, calls)
            == Run(p.events, Observed(Event("?", None), p.operand, Exited(1)))
    decreases calls
  {
    hide Call, Loop;
    if i < |args| && IsOption(args[i]) {
      CallAtOption(spec, args, name, vars, i, j);
      ParseFromAdvance(spec, args, i, j);
      var (v, c) := Call(spec, args, name, vars);
      var (i', j') := Advance(spec, args, i, j);
      LoopFrom(spec, args, name, v, i', j', calls - 1);
      LoopStep(spec, args, name, vars, calls);
    } else {
      CallAtEnd(spec, args, name, vars, i);
      LoopEnds(spec, args, name, vars, calls);
    }
  }

  lemma LoopEnds(spec: OptionSpec, args: seq<string>, name: string, vars: Vars, calls: nat)
    requires Call(spec, args, name, vars).1 != Exited(0)
    ensures var (v, c) := Call(spec, args, name, vars);
            Loop(spec, args, name, vars, calls) == Run([], Observe(v, NameOf(name), c))
  {
  }

  lemma LoopStep(spec: OptionSpec, args: seq<string>, name: string, vars: Vars, calls: nat)
    requires calls > 0 && Call(spec, args, name, vars).1 == Exited(0)
    ensures var (v, c) := Call(spec, args, name, vars);
            var rest := Loop(spec, args, name, v, calls - 1);
            Loop(spec, args, name, vars, calls) == Run([Observe(v, NameOf(name), c).event] + rest.events, rest.last)
  {
  }

  /** From OPTIND=1 with the hidden variables unset, calling until a call fails yields exactly
      the events of the one-pass parse; the failing call exits with 1, sets the variable to
      `?`, unsets OPTARG, and leaves OPTIND at the first operand or one past the arguments. */
  lemma WholeRun(optionsString: string, args: seq<string>, name: string, vars: Vars, calls: nat)
    requires Usable(vars, name) && FitsMachine(args)
    requires vars.OptInd() == 1 && vars.Str(NEXT_CHAR) == None && vars.Str(LAST_OPTIND) == None
    requires |Parse(SpecOf(optionsString), args, 0).events| <= calls
    ensures var p := Parse(SpecOf(optionsString), args, 0);
            Loop(SpecOf(optionsString), args, name, vars, calls)
            == Run(p.events, Observed(Event("?", None), p.operand, Exited(1)))
  {
    LoopFrom(SpecOf(optionsString), args, name, vars, 0, 1, calls);
  }

  /** OPTIND never ends past one more than the number of arguments. */
  lemma {:induction false} OperandBound(spec: OptionSpec, args: seq<string>, i: nat)
    requires i <= |args|
    ensures i + 1 <= Parse(spec, args, i).operand <= |args| + 1
    decreases |args| - i, 0, 0
  {
    if i < |args| && IsOption(args[i]) {
      ClusterOperandBound(spec, args, i, 1);
    }
  }

  lemma {:induction false} ClusterOperandBound(spec: OptionSpec, args: seq<string>, i: nat, j: nat)
    requires i < |args| && j < |args[i]|
    ensures i + 2 <= ParseCluster(spec, args, i, j).operand <= |args| + 1
    decreases |args| - i - 1, 1, |args[i]| - j
  {
    if TakesArgument(spec, args[i][j]) {
      if j + 1 < |args[i]| { OperandBound(spec, args, i + 1); }
      else if i + 1 < |args| { OperandBound(spec, args, i + 2); }
    } else if j + 1 == |args[i]| {
      OperandBound(spec, args, i + 1);
    } else {
      ClusterOperandBound(spec, args, i, j + 1);
    }
  }

  // ----- Rendered command lines parse back -----

  /** An option with an argument, attached to it or given as the next word. */
  datatype Argument = Argument(c: char, value: string, attached: bool)

  /** One word of options: flags that take no argument, then at most one that does. */
  datatype Cluster = Cluster(flags: string, last: Option<Argument>) {
    function Text(): string {
      "-" + flags + match last
                    case None => ""
                    case Some(a) => if a.attached then [a.c] + a.value else [a.c]
    }

    function Words(): seq<string> {
      if last.Some? && !last.value.attached then [Text(), last.value.value] else [Text()]
    }

    /** The options exist with the right kind, and the word reads as options at all. */
    predicate Legal(spec: OptionSpec) {
      && (forall i :: 0 <= i < |flags| ==> flags[i] in spec.defs && !spec.defs[flags[i]])
      && (last.Some? ==> TakesArgument(spec, last.value.c) && (last.value.attached ==> last.value.value != ""))
      && IsOption(Text())
    }

    function Events(): seq<Event> {
      FlagEvents(flags) + LastEvents()
    }

    function LastEvents(): seq<Event> {
      if last.Some? then [Event([last.value.c], Some(last.value.value))] else []
    }
  }

  function FlagEvents(flags: string): seq<Event> {
    seq(|flags|, i requires 0 <= i < |flags| => Event([flags[i]], None))
  }

  function Words(clusters: seq<Cluster>): seq<string> {
    if clusters == [] then [] else clusters[0].Words() + Words(clusters[1..])
  }

  function Events(clusters: seq<Cluster>): seq<Event> {
    if clusters == [] then [] else clusters[0].Events() + Events(clusters[1..])
  }

  function Prepend(events: seq<Event>, p: Parsed): Parsed {
    Parsed(events + p.events, p.operand)
  }

  /** The words of a cluster stand at argument `i`. */
  predicate StandsAt(args: seq<string>, i: nat, k: Cluster) {
    i + |k.Words()| <= |args| && args[i] == k.Text() && (|k.Words()| == 2 ==> args[i + 1] == k.last.value.value)
  }

  lemma ClusterEndParses(spec: OptionSpec, args: seq<string>, i: nat, k: Cluster)
    requires k.Legal(spec) && StandsAt(args, i, k) && k.last.Some?
    ensures |k.flags| + 1 < |args[i]|
    ensures ParseCluster(spec, args, i, |k.flags| + 1) == Prepend(k.LastEvents(), Parse(spec, args, i + |k.Words()|))
  {
    var a, j := k.last.value, |k.flags| + 1;
    assert args[i][j] == a.c;
    if a.attached {
      assert args[i][j + 1..] == a.value;
    }
  }

  lemma FlagEventsHead(flags: string)
    requires flags != ""
    ensures FlagEvents(flags) == [Event([flags[0]], None)] + FlagEvents(flags[1..])
  {
  }

  lemma PrependCons(e: Event, es: seq<Event>, p: Parsed)
    ensures Prepend(es, p).After(e) == Prepend([e] + es, p)
  {
    assert [e] + (es + p.events) == [e] + es + p.events;
  }

  lemma ClusterFlagStep(spec: OptionSpec, args: seq<string>, i: nat, j: nat)
    requires i < |args| && j < |args[i]|
    requires args[i][j] in spec.defs && !spec.defs[args[i][j]]
    ensures ParseCluster(spec, args, i, j)
         == (if j + 1 == |args[i]| then Parse(spec, args, i + 1) else ParseCluster(spec, args, i, j + 1))
            .After(Event([args[i][j]], None))
  {
  }

  lemma FlagAt(spec: OptionSpec, args: seq<string>, i: nat, k: Cluster, j: nat)
    requires k.Legal(spec) && StandsAt(args, i, k) && 1 <= j <= |k.flags|
    ensures j < |args[i]| && args[i][j] == k.flags[j - 1]
    ensures args[i][j] in spec.defs && !spec.defs[args[i][j]]
    ensures j + 1 == |args[i]| ==> j == |k.flags| && |k.Words()| == 1 && k.LastEvents() == []
  {
    assert k.Text()[j] == k.flags[j - 1];
  }

  /** The events from flag `n` on are that flag's and those after it. */
  lemma EventsFrom(k: Cluster, n: nat)
    requires n < |k.flags|
    ensures FlagEvents(k.flags[n..]) + k.LastEvents()
         == [Event([k.flags[n]], None)] + (FlagEvents(k.flags[n + 1..]) + k.LastEvents())
  {
    FlagEventsHead(k.flags[n..]);
    assert k.flags[n..][1..] == k.flags[n + 1..];
    hide FlagEvents;
    Reassociate([Event([k.flags[n]], None)], FlagEvents(k.flags[n + 1..]), k.LastEvents());
  }

  lemma NoEventsLeft(k: Cluster)
    ensures FlagEvents(k.flags[|k.flags|..]) + k.LastEvents() == k.LastEvents()
    ensures forall p :: Prepend([], p) == p
  {
    assert forall p: Parsed :: [] + p.events == p.events;
  }

  lemma {:induction false} ClusterParses(spec: OptionSpec, args: seq<string>, i: nat, k: Cluster, j: nat)
    requires k.Legal(spec) && StandsAt(args, i, k)
    requires 1 <= j < |k.Text()| && j <= |k.flags| + 1
    ensures ParseCluster(spec, args, i, j)
            == Prepend(FlagEvents(k.flags[j - 1..]) + k.LastEvents(), Parse(spec, args, i + |k.Words()|))
    decreases |k.flags| + 1 - j
  {
    hide ParseCluster, Parse, FlagEvents, Prepend;
    NoEventsLeft(k);
    if j == |k.flags| + 1 {
      ClusterEndParses(spec, args, i, k);
    } else {
      var tail := FlagEvents(k.flags[j..]) + k.LastEvents();
      FlagAt(spec, args, i, k, j);
      EventsFrom(k, j - 1);
      ClusterFlagStep(spec, args, i, j);
      if j + 1 < |k.Text()| {
        ClusterParses(spec, args, i, k, j + 1);
      }
      PrependCons(Event([args[i][j]], None), tail, Parse(spec, args, i + |k.Words()|));
    }
  }

  lemma ClusterStands(args: seq<string>, i: nat, k: Cluster, more: seq<string>)
    requires i <= |args| && args[i..] == k.Words() + more
    ensures StandsAt(args, i, k) && args[i + |k.Words()|..] == more
  {
    var n := |k.Words()|;
    assert args[i] == args[i..][0] && (n == 2 ==> args[i + 1] == args[i..][1]);
    assert args[i + n..] == args[i..][n..] == more;
  }

  /** Options written as words in any mixture of grouping, attached and separate arguments,
      followed by `--`, by an operand or by nothing, parse back to exactly those options; the
      operands start where the writer put them. */
  lemma {:induction false} RenderedParses(spec: OptionSpec, args: seq<string>, i: nat, clusters: seq<Cluster>,
                                          tail: seq<string>)
    requires i <= |args| && args[i..] == Words(clusters) + tail
    requires forall n :: 0 <= n < |clusters| ==> clusters[n].Legal(spec)
    requires tail == [] || !IsOption(tail[0])
    ensures Parse(spec, args, i)
            == Parsed(Events(clusters), i + |Words(clusters)| + (if tail != [] && tail[0] == "--" then 2 else 1))
    decreases |clusters|
  {
    hide ParseCluster, Parse, Events, Words;
    RenderedHead(clusters, tail);
    if clusters == [] {
      OperandsParse(spec, args, i, tail);
    } else {
      var k, rest := clusters[0], clusters[1..];
      ClusterStands(args, i, k, Words(rest) + tail);
      ClusterParses(spec, args, i, k, 1);
      assert k.flags[0..] == k.flags;
      RenderedParses(spec, args, i + |k.Words()|, rest, tail);
      OptionParses(spec, args, i);
    }
  }

  lemma RenderedHead(clusters: seq<Cluster>, tail: seq<string>)
    ensures if clusters == [] then Words(clusters) + tail == tail && Events(clusters) == [] && Words(clusters) == []
            else
              && Words(clusters) + tail == clusters[0].Words() + (Words(clusters[1..]) + tail)
              && |Words(clusters)| == |clusters[0].Words()| + |Words(clusters[1..])|
              && Events(clusters) == clusters[0].Events() + Events(clusters[1..])
  {
    if clusters != [] {
      Reassociate(clusters[0].Words(), Words(clusters[1..]), tail);
    }
  }

  lemma OperandsParse(spec: OptionSpec, args: seq<string>, i: nat, tail: seq<string>)
    requires i <= |args| && args[i..] == tail && (tail == [] || !IsOption(tail[0]))
    ensures Parse(spec, args, i) == Parsed([], i + if tail != [] && tail[0] == "--" then 2 else 1)
  {
    if tail != [] {
      assert args[i] == args[i..][0] == tail[0];
    }
  }

  lemma OptionParses(spec: OptionSpec, args: seq<string>, i: nat)
    requires i < |args| && IsOption(args[i])
    ensures Parse(spec, args, i) == ParseCluster(spec, args, i, 1)
  {
  }

  // ----- Calls and options in characters -----

  /** A word that holds options starts with a dash and is neither a lone one nor two. */
  predicate OptionWord(word: string) {
    word != "" && word[0] == '-' && word != "-" && word != "--"
  }

  /** The character is declared by the optstring, and its first occurrence is followed by a colon. */
  ghost predicate WantsArgument(optionsString: string, c: char) {
    c != ':' && exists before: string, after: string :: optionsString == before + [c, ':'] + after && c !in before
  }

  predicate AsksForSilence(optionsString: string) { optionsString != "" && optionsString[0] == ':' }

  /** What a call reports at option character j of a word, and where OPTIND goes; the word has
      number i + 1. */
  ghost function Reported(optionsString: string, args: seq<string>, i: nat, j: nat): (Event, int)
    requires i < |args| && j < |args[i]|
  {
    var c, rest := args[i][j], args[i][j + 1..];
    var silent := AsksForSilence(optionsString);
    var past := if rest == "" then i + 2 else i + 1;
    if c == ':' || c !in optionsString then (Event("?", if silent then Some([c]) else None), past)
    else if !WantsArgument(optionsString, c) then (Event([c], None), past)
    else if rest != "" then (Event([c], Some(rest)), i + 2)
    else if i + 1 < |args| then (Event([c], Some(args[i + 1])), i + 3)
    else if silent then (Event(":", Some([c])), i + 2)
    else (Event("?", None), i + 2)
  }

  lemma SpecInCharacters(optionsString: string, c: char)
    ensures var spec := SpecOf(optionsString);
            && (c in spec.defs <==> c != ':' && c in optionsString)
            && (TakesArgument(spec, c) <==> WantsArgument(optionsString, c))
            && spec.silentErrors == AsksForSilence(optionsString)
  {
    hide WantsArgument;
    if c != ':' && c in optionsString {
      WantsExactly(optionsString, c);
    } else if WantsArgument(optionsString, c) {
      WantsInside(optionsString, c);
    }
  }

  lemma WantsExactly(s: string, c: char)
    requires c != ':' && c in s
    ensures WantsArgument(s, c) <==> FollowedByColon(s, FirstIndex(s, c))
  {
    var k := FirstIndex(s, c);
    if FollowedByColon(s, k) {
      assert s == s[..k] + [c, ':'] + s[k + 2..];
      assert c !in s[..k];
    }
    if WantsArgument(s, c) {
      var before: string, after: string :| s == before + [c, ':'] + after && c !in before;
      assert s[|before|] == c && s[|before| + 1] == ':';
      assert forall m :: 0 <= m < |before| ==> s[m] == before[m];
      assert k == |before|;
    }
  }

  lemma WantsInside(s: string, c: char)
    requires WantsArgument(s, c)
    ensures c != ':' && c in s
  {
    var before: string, after: string :| s == before + [c, ':'] + after && c !in before;
    assert s[|before|] == c;
  }

  lemma ParsedReported(optionsString: string, args: seq<string>, vars: Vars, i: nat, j: nat)
    requires i < |args| && OptionWord(args[i]) && NEXT_CHAR !in vars.readonly
    requires j == if vars.NextCharIndex() < |args[i]| then vars.NextCharIndex() else 1
    ensures j < |args[i]|
    ensures var (v, r) := ParseNext(SpecOf(optionsString), args, vars, i + 1);
            var (event, optind) := Reported(optionsString, args, i, j);
            && r.Some? && Event(r.value.value, r.value.optarg) == event
            && r.value.optind == optind && r.value.exitCode == 0 && v.readonly == vars.readonly
  {
    hide NatToString, ParseInt, SpecOf, WantsArgument, AsksForSilence;
    SpecInCharacters(optionsString, args[i][j]);
  }

  /** A call in characters, whatever OPTIND is: one below 1, unset or not a number counts as 1; past
      the arguments, or at a word that holds no options, it fails, unsets OPTARG and puts OPTIND at
      the operands; at a word with options it succeeds and reports one of them: the character that
      the hidden index names if OPTIND is still the one that the last call left, and the first one
      otherwise. */
  lemma CallInCharacters(optionsString: string, args: seq<string>, name: string, vars: Vars, i: nat)
    requires Usable(vars, name) && FitsMachine(args) && Max(vars.OptInd(), 1) == i + 1
    ensures var (v, c) := Call(SpecOf(optionsString), args, name, vars);
            var seen := Observe(v, NameOf(name), c);
            if i >= |args| then seen == Observed(Event("?", None), |args| + 1, Exited(1))
            else if !OptionWord(args[i])
            then seen == Observed(Event("?", None), if args[i] == ['-', '-'] then i + 2 else i + 1, Exited(1))
            else
              var resumed := vars.LastOptInd() == Some(vars.OptInd()) && vars.NextCharIndex() < |args[i]|;
              var (event, optind) := Reported(optionsString, args, i, if resumed then vars.NextCharIndex() else 1);
              seen == Observed(event, optind, Exited(0))
  {
    hide UpdateVariables, NatToString, ParseInt, SpecOf, ValidVariableName, Reported, ParseNext;
    var cleared := Cleared(vars);
    var spec := SpecOf(optionsString);
    var (parsed, result) := ParseNext(spec, args, cleared, i + 1);
    AnyCallUnfolds(spec, args, name, vars);
    if i < |args| && OptionWord(args[i]) {
      var resumed := vars.LastOptInd() == Some(vars.OptInd()) && vars.NextCharIndex() < |args[i]|;
      var j := if resumed then vars.NextCharIndex() else 1;
      assert j == if cleared.NextCharIndex() < |args[i]| then cleared.NextCharIndex() else 1;
      ParsedReported(optionsString, args, cleared, i, j);
      ReportedBound(optionsString, args, i, j);
    } else {
      ParsedAtEnd(spec, args, cleared, i);
    }
    UpdateObserved(parsed, name, result.value);
  }

  lemma ReportedBound(optionsString: string, args: seq<string>, i: nat, j: nat)
    requires i < |args| && j < |args[i]|
    ensures Reported(optionsString, args, i, j).1 <= |args| + 1
  {
  }

  lemma ParsedAtEnd(spec: OptionSpec, args: seq<string>, vars: Vars, i: nat)
    requires i >= |args| || !OptionWord(args[i])
    ensures ParseNext(spec, args, vars, i + 1)
         == (vars, Some(GetOptsResult("?", None,
               if i >= |args| then |args| + 1 else if args[i] == ['-', '-'] then i + 2 else i + 1, 1)))
  {
  }

  lemma AnyCallUnfolds(spec: OptionSpec, args: seq<string>, name: string, vars: Vars)
    requires Usable(vars, name)
    ensures var (parsed, result) := ParseNext(spec, args, Cleared(vars), Max(vars.OptInd(), 1));
            Call(spec, args, name, vars)
            == if result.None? then (parsed, Refused) else UpdateVariables(parsed, NameOf(name), result.value)
  {
  }

  /** The one-pass parse in characters: it finds no option exactly at the end and at a word that
      holds none; otherwise the first event is that of the word's second character, and OPTIND
      shows where the operands start. */
  lemma ParseInCharacters(optionsString: string, args: seq<string>, i: nat)
    ensures var p := Parse(SpecOf(optionsString), args, i);
            if i >= |args| then p == Parsed([], |args| + 1)
            else if !OptionWord(args[i]) then p == Parsed([], if args[i] == ['-', '-'] then i + 2 else i + 1)
            else |p.events| > 0 && p.events[0] == Reported(optionsString, args, i, 1).0
  {
    hide SpecOf;
    if i < |args| && OptionWord(args[i]) {
      SpecInCharacters(optionsString, args[i][1]);
    }
  }

  /** A name of ASCII letters, digits and underscores that does not start with a digit, and no
      other, is accepted; with any other a call exits with 1 and changes nothing. */
  lemma NameInCharacters(spec: OptionSpec, args: seq<string>, name: string, vars: Vars)
    ensures ValidVariableName(name) <==>
              && name != "" && !(48 <= name[0] as int <= 57)
              && forall c :: c in name ==>
                   var n := c as int; 48 <= n <= 57 || 65 <= n <= 90 || n == 95 || 97 <= n <= 122
    ensures !ValidVariableName(name) ==> Call(spec, args, name, vars) == (vars, Exited(1))
  {
    forall i | 0 <= i < |name| ensures name[i] in name {
    }
  }

  // ----- Changing OPTIND from outside -----

  /** A script that sets OPTIND to k restarts the parse at the first character of argument k
      exactly when k differs from the OPTIND of the last call, or no later character of that
      argument was pending: writing back the same number in the middle of a cluster is not
      noticed. */
  lemma RestartNoticed(vars: Vars, args: seq<string>, k: nat)
    requires 1 <= k <= |args| && IsOption(args[k - 1]) && k <= I32_MAX
    ensures var v := vars.(values := vars.values[OPTIND := NatToString(k)]);
            Ready(v, args, k - 1, 1)
            <==> vars.LastOptInd() != Some(k) || ResumeIndex(vars, args[k - 1]) == 1
  {
    ParseIntToString(k, I32_MIN, I32_MAX);
    var v := vars.(values := vars.values[OPTIND := NatToString(k)]);
    assert v.Str(NEXT_CHAR) == vars.Str(NEXT_CHAR) && v.Str(LAST_OPTIND) == vars.Str(LAST_OPTIND);
  }

  /** An OPTIND beyond 32 bits is not read as a number: the parse starts over at argument 1. */
  lemma HugeOptIndRestarts(vars: Vars, n: nat)
    requires n > I32_MAX && vars.Str(OPTIND) == Some(NatToString(n))
    ensures vars.OptInd() == 1
  {
    ParseIntOutOfRange(n, I32_MIN, I32_MAX);
  }
}
