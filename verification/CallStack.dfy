/** The call stack: its frames, the counters kept beside them, and source positions. */
module CallStacks {
  import opened Wrappers

  // ----- Positions -----

  /** A 0-based character index, a 1-based line and a 1-based column. */
  datatype Position = Position(index: nat, line: nat, column: nat) {
    predicate OneBased() { line >= 1 && column >= 1 }
  }

  const ORIGIN := Position(0, 1, 1)

  datatype SourceInfo = SourceInfo(source: string, start: Option<Position>)

  /** A position relative to a start, made absolute. */
  function Compose(start: Position, p: Position): Position
    requires p.OneBased()
  {
    Position(start.index + p.index,
             start.line + (p.line - 1),
             if p.line <= 1 then start.column + (p.column - 1) else p.column)
  }

  lemma ComposeAssociative(a: Position, b: Position, c: Position)
    requires b.OneBased() && c.OneBased()
    ensures Compose(b, c).OneBased() && Compose(Compose(a, b), c) == Compose(a, Compose(b, c))
    ensures Compose(ORIGIN, b) == b && Compose(a, ORIGIN) == a
  {
  }

  /** Where the i-th character of a text stands. */
  function PositionAt(text: string, i: nat): (p: Position)
    requires i <= |text|
    ensures p.OneBased()
  {
    if i == 0 then ORIGIN
    else
      var p := PositionAt(text, i - 1);
      if text[i - 1] == '\n' then Position(i, p.line + 1, 1) else Position(i, p.line, p.column + 1)
  }

  /** That is: on which line, counted by the newlines before it, and how far behind the last of
      them. */
  lemma {:induction false} PositionCounts(text: string, i: nat)
    requires i <= |text|
    ensures var p := PositionAt(text, i);
            && p.index == i && p.line == 1 + multiset(text[..i])['\n']
            && p.column - 1 <= i && '\n' !in text[i - (p.column - 1)..i]
            && (p.column - 1 < i ==> text[i - p.column] == '\n')
  {
    if i > 0 {
      PositionCounts(text, i - 1);
      PositionStep(text, i);
      hide PositionAt;
      OneMore(text, 0, i - 1, '\n');
      OneMore(text, i - PositionAt(text, i - 1).column, i - 1, '\n');
      assert text[..i] == text[0..i] && text[..i - 1] == text[0..i - 1];
    }
  }

  lemma PositionStep(text: string, i: nat)
    requires 0 < i <= |text|
    ensures var p := PositionAt(text, i - 1);
            PositionAt(text, i)
            == if text[i - 1] == '\n' then Position(i, p.line + 1, 1) else Position(i, p.line, p.column + 1)
  {
  }

  lemma OneMore(text: string, from: nat, to: nat, c: char)
    requires from <= to < |text|
    ensures multiset(text[from..to + 1])[c] == multiset(text[from..to])[c] + (if text[to] == c then 1 else 0)
    ensures c in text[from..to + 1] <==> c in text[from..to] || text[to] == c
  {
    assert text[from..to + 1] == text[from..to] + [text[to]];
  }

  /** What composing means: a position in the text from some character on, seen from where that
      character stands, is the position in the whole text. */
  lemma {:induction false} ComposeLocates(text: string, i: nat, k: nat)
    requires i + k <= |text|
    ensures Compose(PositionAt(text, i), PositionAt(text[i..], k)) == PositionAt(text, i + k)
    decreases k
  {
    if k > 0 {
      ComposeLocates(text, i, k - 1);
      LinesOnlyGrow(text[i..], k - 1);
    }
  }

  lemma {:induction false} LinesOnlyGrow(text: string, i: nat)
    requires i <= |text|
    ensures PositionAt(text, i).line <= 1 ==> PositionAt(text, i).column == i + 1
  {
    if i > 0 {
      LinesOnlyGrow(text, i - 1);
    }
  }

  // ----- Frames -----

  datatype ScriptCallType = Source | Run

  /** Signals are told apart by a number; what they stand for is not part of this model. */
  type Signal = nat

  datatype FrameType =
    | Script(callType: ScriptCallType, script: SourceInfo)
    | Function(name: string)
    | TrapHandler(signal: Signal)
    | Eval
    | CommandString
    | InteractiveSession

  datatype Frame = Frame(
    frameType: FrameType,
    sourceInfo: SourceInfo,
    entry: Option<Position>,
    current: Option<Position>,
    args: seq<string>,
    currentLineOffset: nat)
  {
    predicate IsFunction() { frameType.Function? }

    predicate IsSourcedScript() { frameType.Script? && frameType.callType.Source? }

    /** A position in this frame, in terms of the source the frame's source is part of. */
    function PosAsSourceInfo(pos: Option<Position>): SourceInfo
      requires pos.Some? ==> pos.value.OneBased()
    {
      var start :=
        if sourceInfo.start.Some? then
          if pos.Some? then Some(Compose(sourceInfo.start.value, pos.value)) else sourceInfo.start
        else pos;
      var moved :=
        if currentLineOffset > 0 then
          if start.Some? then Some(start.value.(line := start.value.line + currentLineOffset))
          else Some(Position(0, currentLineOffset + 1, 1))
        else start;
      SourceInfo(sourceInfo.source, moved)
    }

    function AdjustedSourceInfo(): SourceInfo { PosAsSourceInfo(None) }

    function CurrentLine(): Option<nat> {
      var startLine := if sourceInfo.start.Some? then sourceInfo.start.value.line else 1;
      match current
      case None => None
      case Some(p) => Some((if startLine == 0 then 0 else startLine - 1) + p.line + currentLineOffset)
    }

    function CurrentFrameRelativeLine(): Option<nat> {
      var entryLine := if entry.Some? then entry.value.line else 1;
      match current
      case None => None
      case Some(p) => Some((if p.line < entryLine then 0 else p.line - entryLine) + currentLineOffset + 1)
    }
  }

  /** A position in a frame is one in the frame's source: the start of that part composed with it,
      moved down by the line offset. Without a position it is the start; without a start the
      position itself, and without both, the line that the offset leads to, if there is one. */
  lemma PosInSource(f: Frame, pos: Option<Position>)
    requires pos.Some? ==> pos.value.OneBased()
    ensures var (r, n) := (f.PosAsSourceInfo(pos), f.currentLineOffset);
            && r.source == f.sourceInfo.source
            && match (f.sourceInfo.start, pos)
               case (None, None) => r.start == if n == 0 then None else Some(Position(0, 1 + n, 1))
               case (None, Some(p)) => r.start == Some(Position(p.index, p.line + n, p.column))
               case (Some(s), None) => r.start == Some(Position(s.index, s.line + n, s.column))
               case (Some(s), Some(p)) =>
                 var c := Compose(s, p); r.start == Some(Position(c.index, c.line + n, c.column))
  {
  }

  /** The line reported for a frame is the line of its current position, except in a source that
      starts on line zero. */
  lemma CurrentLineIsComposed(f: Frame)
    requires f.current.Some? && f.current.value.OneBased()
    ensures var start := f.PosAsSourceInfo(f.current).start;
            && start.Some?
            && (f.CurrentLine() == Some(start.value.line)
               <==> f.sourceInfo.start.None? || f.sourceInfo.start.value.line >= 1)
  {
  }

  /** A frame's positions are those of its source seen from the frame's adjusted start. */
  lemma PositionsComposeWithAdjustedStart(f: Frame, p: Position)
    requires p.OneBased()
    ensures var adjusted := f.AdjustedSourceInfo().start;
            f.PosAsSourceInfo(Some(p)).start == Some(Compose(if adjusted.Some? then adjusted.value else ORIGIN, p))
  {
  }

  /** Frame-relative lines count from the entry: the distance in composed lines, from one on, and
      the frame's line offset. */
  lemma RelativeLineCountsFromEntry(f: Frame)
    requires f.current.Some? && f.current.value.OneBased() && f.entry.Some? && f.entry.value.OneBased()
    requires f.entry.value.line <= f.current.value.line
    ensures var entered, now := f.PosAsSourceInfo(f.entry).start, f.PosAsSourceInfo(f.current).start;
            && entered.Some? && now.Some?
            && f.CurrentFrameRelativeLine() == Some(now.value.line - entered.value.line + 1 + f.currentLineOffset)
  {
  }

  // ----- The stack -----

  /** The youngest frame comes first. */
  datatype State = State(
    frames: seq<Frame>,
    funcCallDepth: nat,
    scriptSourceDepth: nat,
    activeTrapSignals: set<Signal>,
    trapDeliverySuppressCount: nat)

  const EMPTY := State([], 0, 0, {}, 0)

  datatype Op =
    | Push(frame: Frame)
    | Pop
    | SetCurrent(pos: Option<Position>)
    | MoveLines(delta: nat)
    | ClearTraps
    | AcquireBlock
    | ReleaseBlock

  function SaturatingDecrement(n: nat): nat { if n == 0 then 0 else n - 1 }

  function Apply(s: State, op: Op): State {
    match op
    case Push(f) =>
      s.(frames := [f] + s.frames,
         funcCallDepth := s.funcCallDepth + if f.IsFunction() then 1 else 0,
         scriptSourceDepth := s.scriptSourceDepth + if f.IsSourcedScript() then 1 else 0,
         activeTrapSignals := s.activeTrapSignals + if f.frameType.TrapHandler? then {f.frameType.signal} else {})
    case Pop =>
      if s.frames == [] then s
      else
        var f := s.frames[0];
        s.(frames := s.frames[1..],
           funcCallDepth := if f.IsFunction() then SaturatingDecrement(s.funcCallDepth) else s.funcCallDepth,
           scriptSourceDepth := if f.IsSourcedScript() then SaturatingDecrement(s.scriptSourceDepth)
             else s.scriptSourceDepth,
           activeTrapSignals := s.activeTrapSignals - if f.frameType.TrapHandler? then {f.frameType.signal} else {})
    case SetCurrent(pos) =>
      if s.frames == [] then s else s.(frames := [s.frames[0].(current := pos)] + s.frames[1..])
    case MoveLines(delta) =>
      if s.frames == [] then s
      else s.(frames := [s.frames[0].(currentLineOffset := s.frames[0].currentLineOffset + delta)] + s.frames[1..])
    case ClearTraps => s.(activeTrapSignals := {})
    case AcquireBlock => s.(trapDeliverySuppressCount := s.trapDeliverySuppressCount + 1)
    case ReleaseBlock => s.(trapDeliverySuppressCount := SaturatingDecrement(s.trapDeliverySuppressCount))
  }

  function RunAll(s: State, ops: seq<Op>): State
    decreases |ops|
  {
    if ops == [] then s else RunAll(Apply(s, ops[0]), ops[1..])
  }

  function Functions(frames: seq<Frame>): nat {
    if frames == [] then 0 else (if frames[0].IsFunction() then 1 else 0) + Functions(frames[1..])
  }

  function SourcedScripts(frames: seq<Frame>): nat {
    if frames == [] then 0 else (if frames[0].IsSourcedScript() then 1 else 0) + SourcedScripts(frames[1..])
  }

  function Signals(frames: seq<Frame>): set<Signal> {
    if frames == [] then {}
    else (if frames[0].frameType.TrapHandler? then {frames[0].frameType.signal} else {}) + Signals(frames[1..])
  }

  /** The counters count the frames, and only signals with a handler on the stack are active. */
  predicate Counted(s: State) {
    && s.funcCallDepth == Functions(s.frames)
    && s.scriptSourceDepth == SourcedScripts(s.frames)
    && s.activeTrapSignals <= Signals(s.frames)
  }

  lemma SameKinds(frames: seq<Frame>, f: Frame)
    requires frames != [] && f.frameType == frames[0].frameType
    ensures var r := [f] + frames[1..];
            Functions(r) == Functions(frames) && SourcedScripts(r) == SourcedScripts(frames)
            && Signals(r) == Signals(frames)
  {
    assert ([f] + frames[1..])[1..] == frames[1..];
  }

  lemma Pushed(frames: seq<Frame>, f: Frame)
    ensures var r := [f] + frames;
            && Functions(r) == Functions(frames) + (if f.IsFunction() then 1 else 0)
            && SourcedScripts(r) == SourcedScripts(frames) + (if f.IsSourcedScript() then 1 else 0)
            && Signals(r) == Signals(frames) + (if f.frameType.TrapHandler? then {f.frameType.signal} else {})
  {
    assert ([f] + frames)[1..] == frames;
  }

  lemma Popped(frames: seq<Frame>)
    requires frames != []
    ensures var f, r := frames[0], frames[1..];
            && Functions(frames) == Functions(r) + (if f.IsFunction() then 1 else 0)
            && SourcedScripts(frames) == SourcedScripts(r) + (if f.IsSourcedScript() then 1 else 0)
            && Signals(frames) == Signals(r) + (if f.frameType.TrapHandler? then {f.frameType.signal} else {})
  {
  }

  lemma ApplyKeepsCounts(s: State, op: Op)
    requires Counted(s)
    ensures Counted(Apply(s, op))
  {
    hide Functions, SourcedScripts, Signals;
    if op.Push? {
      Pushed(s.frames, op.frame);
    } else if s.frames != [] {
      var f := s.frames[0];
      match op
      case Pop => Popped(s.frames);
      case SetCurrent(pos) => SameKinds(s.frames, f.(current := pos));
      case MoveLines(delta) => SameKinds(s.frames, f.(currentLineOffset := f.currentLineOffset + delta));
      case _ =>
    }
  }

  /** After every run of operations the counters are the numbers of function frames and of
      sourced-script frames, and active signals have a handler on the stack. */
  lemma {:induction false} RunKeepsCounts(s: State, ops: seq<Op>)
    requires Counted(s)
    ensures Counted(RunAll(s, ops))
    decreases |ops|
  {
    if ops != [] {
      ApplyKeepsCounts(s, ops[0]);
      RunKeepsCounts(Apply(s, ops[0]), ops[1..]);
    }
  }

  lemma {:induction false} SomeFunction(frames: seq<Frame>)
    ensures Functions(frames) > 0 <==> exists f :: f in frames && f.IsFunction()
    ensures SourcedScripts(frames) > 0 <==> exists f :: f in frames && f.IsSourcedScript()
  {
    if frames != [] {
      SomeFunction(frames[1..]);
      assert forall f :: f in frames <==> f == frames[0] || f in frames[1..];
    }
  }

  /** No decrement ever saturates: a frame that lowers a counter was counted. */
  lemma PopNeverSaturates(s: State)
    requires Counted(s) && s.frames != []
    ensures s.frames[0].IsFunction() ==> s.funcCallDepth > 0
    ensures s.frames[0].IsSourcedScript() ==> s.scriptSourceDepth > 0
  {
    SomeFunction(s.frames);
    assert s.frames[0] in s.frames;
  }

  // ----- Trap signals -----

  /** No signal has two handlers on the stack. */
  predicate HandledOnce(frames: seq<Frame>) {
    frames == []
    || ((frames[0].frameType.TrapHandler? ==> frames[0].frameType.signal !in Signals(frames[1..]))
      && HandledOnce(frames[1..]))
  }

  predicate Exact(s: State) {
    s.activeTrapSignals == Signals(s.frames) && HandledOnce(s.frames)
  }

  /** A handler is entered only for a signal that is not active, and nothing is cleared. */
  predicate Guarded(s: State, op: Op) {
    && !op.ClearTraps?
    && (op.Push? && op.frame.frameType.TrapHandler? ==> op.frame.frameType.signal !in s.activeTrapSignals)
  }

  predicate GuardedRun(s: State, ops: seq<Op>)
    decreases |ops|
  {
    ops == [] || (Guarded(s, ops[0]) && GuardedRun(Apply(s, ops[0]), ops[1..]))
  }

  lemma SameHandled(frames: seq<Frame>, f: Frame)
    requires frames != [] && f.frameType == frames[0].frameType && HandledOnce(frames)
    ensures HandledOnce([f] + frames[1..])
  {
    assert ([f] + frames[1..])[1..] == frames[1..];
  }

  lemma ApplyKeepsExact(s: State, op: Op)
    requires Exact(s) && Guarded(s, op)
    ensures Exact(Apply(s, op))
  {
    hide Signals;
    if op.Push? {
      Pushed(s.frames, op.frame);
      assert ([op.frame] + s.frames)[1..] == s.frames;
    } else if s.frames != [] {
      var f := s.frames[0];
      match op
      case Pop => Popped(s.frames);
      case SetCurrent(pos) =>
        SameKinds(s.frames, f.(current := pos));
        SameHandled(s.frames, f.(current := pos));
      case MoveLines(delta) =>
        SameKinds(s.frames, f.(currentLineOffset := f.currentLineOffset + delta));
        SameHandled(s.frames, f.(currentLineOffset := f.currentLineOffset + delta));
      case _ =>
    }
  }

  /** Over guarded runs the active signals are exactly those being handled. */
  lemma {:induction false} GuardedRunIsExact(s: State, ops: seq<Op>)
    requires Exact(s) && GuardedRun(s, ops)
    ensures Exact(RunAll(s, ops))
    decreases |ops|
  {
    hide Exact;
    if ops != [] {
      ApplyKeepsExact(s, ops[0]);
      GuardedRunIsExact(Apply(s, ops[0]), ops[1..]);
    }
  }

  /** Without the guard: leaving a handler makes its signal inactive, so the active signals stay
      those on the stack exactly when the signal has no other handler there. */
  lemma LeavingHandler(s: State)
    requires s.frames != [] && s.frames[0].frameType.TrapHandler? && s.activeTrapSignals == Signals(s.frames)
    ensures Apply(s, Pop).activeTrapSignals == Signals(s.frames[1..])
            <==> s.frames[0].frameType.signal !in Signals(s.frames[1..])
  {
    hide Signals;
    Popped(s.frames);
  }

  // ----- Calls -----

  /** The operations leave at least one frame above the ones below, and end with exactly one. */
  predicate StaysAbove(ops: seq<Op>, depth: nat)
    decreases |ops|
  {
    depth >= 1
    && if ops == [] then depth == 1
       else StaysAbove(ops[1..], DepthAfter(ops[0], depth))
  }

  lemma {:induction false} FramesBelowUntouched(s: State, ops: seq<Op>, below: seq<Frame>, depth: nat)
    requires |s.frames| == depth + |below| && s.frames[depth..] == below && StaysAbove(ops, depth)
    ensures |RunAll(s, ops).frames| == 1 + |below| && RunAll(s, ops).frames[1..] == below
    decreases |ops|
  {
    if ops != [] {
      var op := ops[0];
      var depth' := DepthAfter(op, depth);
      BelowStep(s, op, below, depth);
      FramesBelowUntouched(Apply(s, op), ops[1..], below, depth');
    }
  }

  function DepthAfter(op: Op, depth: nat): int {
    if op.Push? then depth + 1 else if op.Pop? then depth - 1 else depth
  }

  lemma BelowStep(s: State, op: Op, below: seq<Frame>, depth: nat)
    requires depth >= 1 && |s.frames| == depth + |below| && s.frames[depth..] == below
    ensures |Apply(s, op).frames| == DepthAfter(op, depth) + |below|
    ensures Apply(s, op).frames[DepthAfter(op, depth)..] == below
  {
    match op
    case Push(f) => DropUnder([f], s.frames, depth);
    case Pop => DropTwice(s.frames, depth);
    case SetCurrent(pos) => DropChanged(s.frames, s.frames[0].(current := pos), depth);
    case MoveLines(delta) =>
      DropChanged(s.frames, s.frames[0].(currentLineOffset := s.frames[0].currentLineOffset + delta), depth);
    case _ =>
  }

  lemma DropUnder(top: seq<Frame>, frames: seq<Frame>, depth: nat)
    requires |top| == 1 && depth <= |frames|
    ensures (top + frames)[depth + 1..] == frames[depth..]
  {
  }

  lemma DropTwice(frames: seq<Frame>, depth: nat)
    requires 1 <= depth <= |frames|
    ensures frames[1..][depth - 1..] == frames[depth..]
  {
  }

  lemma DropChanged(frames: seq<Frame>, f: Frame, depth: nat)
    requires 1 <= depth <= |frames|
    ensures ([f] + frames[1..])[depth..] == frames[depth..]
  {
  }

  function Call(s: State, f: Frame, ops: seq<Op>): State {
    Apply(RunAll(Apply(s, Push(f)), ops), Pop)
  }

  /** A call - push, anything that leaves its frame on the stack, pop - restores every frame and
      both counters. */
  lemma CallRestoresFrames(s: State, f: Frame, ops: seq<Op>)
    requires Counted(s) && StaysAbove(ops, 1)
    ensures var r := Call(s, f, ops);
            r.frames == s.frames && r.funcCallDepth == s.funcCallDepth && r.scriptSourceDepth == s.scriptSourceDepth
  {
    hide Functions, SourcedScripts, Signals;
    var pushed := Apply(s, Push(f));
    assert pushed.frames[1..] == s.frames;
    FramesBelowUntouched(pushed, ops, s.frames, 1);
    ApplyKeepsCounts(s, Push(f));
    RunKeepsCounts(pushed, ops);
    ApplyKeepsCounts(RunAll(pushed, ops), Pop);
  }

  /** A guarded call restores the active signals as well. */
  lemma GuardedCallRestoresTraps(s: State, f: Frame, ops: seq<Op>)
    requires Counted(s) && Exact(s) && StaysAbove(ops, 1)
    requires Guarded(s, Push(f)) && GuardedRun(Apply(s, Push(f)), ops)
    ensures Call(s, f, ops).activeTrapSignals == s.activeTrapSignals
  {
    hide Exact, Signals;
    CallRestoresFrames(s, f, ops);
    ApplyKeepsExact(s, Push(f));
    GuardedRunIsExact(Apply(s, Push(f)), ops);
    ApplyKeepsExact(RunAll(Apply(s, Push(f)), ops), Pop);
    ExactSignals(s);
    ExactSignals(Call(s, f, ops));
  }

  lemma ExactSignals(s: State)
    requires Exact(s)
    ensures s.activeTrapSignals == Signals(s.frames)
  {
  }

  /** Every release matches an acquisition before it, and in the end all are released. */
  predicate BalancedBlocks(ops: seq<Op>, held: nat)
    decreases |ops|
  {
    if ops == [] then held == 0
    else if ops[0].ReleaseBlock? then held > 0 && BalancedBlocks(ops[1..], held - 1)
    else BalancedBlocks(ops[1..], if ops[0].AcquireBlock? then held + 1 else held)
  }

  /** Balanced blocks leave trap delivery as suppressed as it was. */
  lemma {:induction false} BalancedBlocksRestore(s: State, ops: seq<Op>, held: nat)
    requires BalancedBlocks(ops, held) && held <= s.trapDeliverySuppressCount
    ensures RunAll(s, ops).trapDeliverySuppressCount == s.trapDeliverySuppressCount - held
    decreases |ops|
  {
    if ops != [] {
      var held' := if ops[0].ReleaseBlock? then held - 1 else if ops[0].AcquireBlock? then held + 1 else held;
      BalancedBlocksRestore(Apply(s, ops[0]), ops[1..], held');
    }
  }

  // ----- The stack as an object -----

  class CallStack {
    var frames: seq<Frame>
    var funcCallDepth: nat
    var scriptSourceDepth: nat
    var activeTrapSignals: set<Signal>
    var trapDeliverySuppressCount: nat

    ghost function Value(): State
      reads this
    {
      State(frames, funcCallDepth, scriptSourceDepth, activeTrapSignals, trapDeliverySuppressCount)
    }

    constructor ()
      ensures Value() == EMPTY && Counted(Value()) && Exact(Value())
    {
      frames, funcCallDepth, scriptSourceDepth, activeTrapSignals, trapDeliverySuppressCount := [], 0, 0, {}, 0;
    }

    /** Removes the youngest frame. */
    method Pop() returns (frame: Option<Frame>)
      modifies this
      ensures Value() == Apply(old(Value()), Op.Pop)
      ensures frame == if old(frames) == [] then None else Some(old(frames)[0])
      ensures Counted(old(Value())) ==> Counted(Value())
    {
      ghost var before := Value();
      if Counted(before) {
        ApplyKeepsCounts(before, Op.Pop);
      }
      if frames == [] {
        return None;
      }
      var f := frames[0];
      frames := frames[1..];
      if f.IsFunction() {
        funcCallDepth := SaturatingDecrement(funcCallDepth);
      }
      if f.IsSourcedScript() {
        scriptSourceDepth := SaturatingDecrement(scriptSourceDepth);
      }
      if f.frameType.TrapHandler? {
        activeTrapSignals := activeTrapSignals - {f.frameType.signal};
      }
      frame := Some(f);
    }

    method PushScript(callType: ScriptCallType, sourceInfo: SourceInfo, args: seq<string>)
      modifies this
      ensures Value() == Apply(old(Value()), Push(Frame(Script(callType, sourceInfo), sourceInfo, None, None, args, 0)))
    {
      frames := [Frame(Script(callType, sourceInfo), sourceInfo, None, None, args, 0)] + frames;
      if callType.Source? {
        scriptSourceDepth := scriptSourceDepth + 1;
      }
    }

    method PushTrapHandler(signal: Signal, handlerSource: Option<SourceInfo>)
      modifies this
      ensures Value() == Apply(old(Value()), Push(TrapFrame(signal, handlerSource)))
    {
      frames := [TrapFrame(signal, handlerSource)] + frames;
      activeTrapSignals := activeTrapSignals + {signal};
    }

    method PushEval()
      modifies this
      ensures Value() == Apply(old(Value()), Push(PlainFrame(Eval, "eval")))
    {
      frames := [PlainFrame(Eval, "eval")] + frames;
    }

    method PushCommandString()
      modifies this
      ensures Value() == Apply(old(Value()), Push(PlainFrame(CommandString, "environment")))
    {
      frames := [PlainFrame(CommandString, "environment")] + frames;
    }

    method PushInteractiveSession()
      modifies this
      ensures Value() == Apply(old(Value()), Push(PlainFrame(InteractiveSession, "main")))
    {
      frames := [PlainFrame(InteractiveSession, "main")] + frames;
    }

    method PushFunction(name: string, source: SourceInfo, definedAt: Option<Position>, args: seq<string>)
      modifies this
      ensures Value() == Apply(old(Value()), Push(Frame(Function(name), source, definedAt, None, args, 0)))
    {
      frames := [Frame(Function(name), source, definedAt, None, args, 0)] + frames;
      funcCallDepth := funcCallDepth + 1;
    }

    method SetCurrentPos(position: Option<Position>)
      modifies this`frames
      ensures Value() == Apply(old(Value()), SetCurrent(position))
    {
      if frames != [] {
        frames := [frames[0].(current := position)] + frames[1..];
      }
    }

    method IncrementCurrentLineOffset(delta: nat)
      modifies this`frames
      ensures Value() == Apply(old(Value()), MoveLines(delta))
    {
      if frames != [] {
        frames := [frames[0].(currentLineOffset := frames[0].currentLineOffset + delta)] + frames[1..];
      }
    }

    method ClearActiveTrapSignals()
      modifies this`activeTrapSignals
      ensures Value() == Apply(old(Value()), ClearTraps)
    {
      activeTrapSignals := {};
    }

    method AcquireTrapDeliveryBlock()
      modifies this`trapDeliverySuppressCount
      ensures Value() == Apply(old(Value()), AcquireBlock)
    {
      trapDeliverySuppressCount := trapDeliverySuppressCount + 1;
    }

    method ReleaseTrapDeliveryBlock()
      modifies this`trapDeliverySuppressCount
      ensures Value() == Apply(old(Value()), ReleaseBlock)
    {
      trapDeliverySuppressCount := SaturatingDecrement(trapDeliverySuppressCount);
    }

    /** Whether any frame is a function call; on a sound stack the counter alone tells. */
    method InFunction() returns (r: bool)
      ensures r <==> exists f :: f in frames && f.IsFunction()
      ensures Counted(Value()) ==> (r <==> funcCallDepth > 0)
    {
      SomeFunction(frames);
      r := false;
      for i := 0 to |frames|
        invariant r <==> exists f :: f in frames[..i] && f.IsFunction()
      {
        assert frames[..i + 1] == frames[..i] + [frames[i]];
        if frames[i].IsFunction() {
          r := true;
        }
      }
      assert frames[..|frames|] == frames;
    }

    /** Whether the youngest script frame is a sourced one. */
    method InSourcedScript() returns (r: bool)
      ensures r <==> exists i :: 0 <= i < |frames| && frames[i].IsSourcedScript()
                                 && forall j :: 0 <= j < i ==> !frames[j].frameType.Script?
    {
      for i := 0 to |frames|
        invariant forall j :: 0 <= j < i ==> !frames[j].frameType.Script?
      {
        if frames[i].frameType.Script? {
          return frames[i].frameType.callType.Source?;
        }
      }
      r := false;
    }
  }

  /** A frame for text that has only a name. */
  function PlainFrame(frameType: FrameType, source: string): Frame {
    Frame(frameType, SourceInfo(source, None), None, None, [], 0)
  }

  function TrapFrame(signal: Signal, handlerSource: Option<SourceInfo>): Frame {
    Frame(TrapHandler(signal), match handlerSource case Some(source) => source case None => SourceInfo("", None),
          None, None, [], 0)
  }
}
