/** The job table: ids, the current and previous job, job specifications, and polling. */
module Jobs {
  import opened Wrappers
  import opened Numerals

  /** A task is told apart by a number; what it runs is not part of this model. */
  type Task = nat

  datatype Outcome = Exited(code: nat) | Failed

  datatype JobState = Unknown | Running | Stopped | Done

  datatype JobAnnotation = NoAnnotation | Current | Previous

  datatype Job = Job(id: nat, tasks: seq<Task>, annotation: JobAnnotation, commandLine: string, state: JobState)

  /** What polling the tasks finds out at one moment: the outcome of those that are done. */
  type Oracle = Task -> Option<Outcome>

  // ----- The table -----

  ghost predicate HasId(jobs: seq<Job>, id: nat) {
    exists k :: 0 <= k < |jobs| && jobs[k].id == id
  }

  predicate DistinctIds(jobs: seq<Job>) {
    && (forall k :: 0 <= k < |jobs| ==> jobs[k].id >= 1)
    && (forall i, k :: 0 <= i < k < |jobs| ==> jobs[i].id != jobs[k].id)
  }

  predicate AtMostOneCurrent(jobs: seq<Job>) {
    forall i, k :: 0 <= i < k < |jobs| ==> !(jobs[i].annotation.Current? && jobs[k].annotation.Current?)
  }

  predicate Sound(jobs: seq<Job>) {
    DistinctIds(jobs) && AtMostOneCurrent(jobs)
  }

  /** The smallest id no job has. */
  ghost predicate IsNextId(jobs: seq<Job>, id: nat) {
    id >= 1 && !HasId(jobs, id) && forall k :: 1 <= k < id ==> HasId(jobs, k)
  }

  function Ids(jobs: seq<Job>): set<nat> {
    set k | 0 <= k < |jobs| :: jobs[k].id
  }

  lemma {:induction false} IdsBounded(jobs: seq<Job>)
    ensures |Ids(jobs)| <= |jobs|
  {
    if jobs != [] {
      var front := jobs[..|jobs| - 1];
      IdsBounded(front);
      assert Ids(jobs) == Ids(front) + {jobs[|jobs| - 1].id};
    }
  }

  function UpTo(n: nat): (s: set<nat>)
    ensures forall k :: k in s <==> 1 <= k <= n
    ensures |s| == n
  {
    if n == 0 then {} else UpTo(n - 1) + {n}
  }

  lemma SubsetSize(a: set<nat>, b: set<nat>)
    requires a <= b
    ensures |a| <= |b|
  {
    assert b == a + (b - a);
  }

  /** The pigeonhole principle: n jobs cannot hold more than n of the smallest ids. */
  lemma SmallIdsFit(jobs: seq<Job>, n: nat)
    requires forall k :: 1 <= k <= n ==> HasId(jobs, k)
    ensures n <= |jobs|
  {
    IdsBounded(jobs);
    forall k | k in UpTo(n) ensures k in Ids(jobs) {
      assert HasId(jobs, k);
    }
    SubsetSize(UpTo(n), Ids(jobs));
  }

  // ----- Adding -----

  /** Only the first current job is demoted. */
  function Demoted(jobs: seq<Job>): (r: seq<Job>)
    ensures |r| == |jobs|
  {
    if jobs == [] then []
    else if jobs[0].annotation.Current? then [jobs[0].(annotation := Previous)] + jobs[1..]
    else [jobs[0]] + Demoted(jobs[1..])
  }

  function Added(jobs: seq<Job>, job: Job, id: nat): seq<Job> {
    Demoted(jobs) + [job.(id := id, annotation := Current)]
  }

  lemma {:induction false} DemotedIs(jobs: seq<Job>)
    requires AtMostOneCurrent(jobs)
    ensures forall k :: 0 <= k < |jobs| ==>
              Demoted(jobs)[k] == if jobs[k].annotation.Current? then jobs[k].(annotation := Previous) else jobs[k]
  {
    if jobs != [] && !jobs[0].annotation.Current? {
      DemotedIs(jobs[1..]);
    }
  }

  /** It is the smallest id from one on that no job has. */
  lemma NextIdIsLeast(jobs: seq<Job>, id: nat, other: nat)
    requires IsNextId(jobs, id)
    requires other >= 1 && forall job :: job in jobs ==> job.id != other
    ensures id >= 1 && (forall job :: job in jobs ==> job.id != id) && id <= other
  {
    assert !HasId(jobs, other) by {
      assert forall k :: 0 <= k < |jobs| ==> jobs[k] in jobs;
    }
  }

  /** A new job gets an id of its own and is the only current one. */
  lemma AddKeepsSound(jobs: seq<Job>, job: Job, id: nat)
    requires Sound(jobs) && IsNextId(jobs, id)
    ensures Sound(Added(jobs, job, id))
    ensures forall k :: 0 <= k < |jobs| ==> !Added(jobs, job, id)[k].annotation.Current?
  {
    DemotedIs(jobs);
  }

  // ----- Finding -----

  /** What a job is looked for by. */
  datatype Wanted = ByAnnotation(annotation: JobAnnotation) | ById(id: nat)

  predicate Fits(job: Job, wanted: Wanted) {
    match wanted
    case ByAnnotation(annotation) => job.annotation == annotation
    case ById(id) => job.id == id
  }

  /** The first job that fits. */
  function First(jobs: seq<Job>, wanted: Wanted): (r: Option<nat>)
    ensures r.Some? ==> r.value < |jobs| && Fits(jobs[r.value], wanted)
    ensures forall k :: 0 <= k < (if r.Some? then r.value else |jobs|) ==> !Fits(jobs[k], wanted)
  {
    if jobs == [] then None
    else if Fits(jobs[0], wanted) then Some(0)
    else match First(jobs[1..], wanted) case Some(k) => Some(k + 1) case None => None
  }

  /** The job a specification names. Command names are not supported; other numeric characters
      than the ten digits are, but are no number. */
  function Resolve(jobs: seq<Job>, spec: string): Option<nat> {
    if spec == "" || spec[0] != '%' then None
    else
      var remainder := spec[1..];
      if remainder == ['%'] || remainder == ['+'] then First(jobs, ByAnnotation(Current))
      else if remainder == ['-'] then First(jobs, ByAnnotation(Previous))
      else if AllDigits(remainder) then
        match ParseUsize(remainder)
        case None => None
        case Some(id) => First(jobs, ById(id))
      else None
  }

  /** The first job of which something holds, if there is one. */
  predicate IsFirst(jobs: seq<Job>, r: Option<nat>, holds: Job -> bool) {
    match r
    case None => forall k :: 0 <= k < |jobs| ==> !holds(jobs[k])
    case Some(i) => i < |jobs| && holds(jobs[i]) && forall k :: 0 <= k < i ==> !holds(jobs[k])
  }

  /** Exactly which specifications name jobs: `%%` and `%+` the current one, `%-` the previous one, and
      a percent sign before a decimal number that fits a machine word the one with that id. */
  lemma SpecNames(jobs: seq<Job>, spec: string)
    ensures var r := Resolve(jobs, spec);
            if |spec| < 2 || spec[0] as int != 0x25 then r == None
            else if |spec| == 2 && spec[1] as int in [0x25, 0x2B]
            then IsFirst(jobs, r, (job: Job) => job.annotation.Current?)
            else if |spec| == 2 && spec[1] as int == 0x2D
            then IsFirst(jobs, r, (job: Job) => job.annotation.Previous?)
            else
              var n := Decimal(spec[1..], 0);
              if IsDecimal(spec[1..]) && n <= USIZE_MAX then IsFirst(jobs, r, (job: Job) => job.id == n) else r == None
  {
    hide First, Decimal, ParseInt;
    if |spec| >= 2 {
      DecimalNat(spec[1..]);
      ParseIntReads(spec[1..], 0, USIZE_MAX);
      assert |spec| == 2 ==> spec[1..] == [spec[1]];
    } else if spec != "" {
      NothingNamed();
    }
  }

  lemma DecimalNat(s: string)
    ensures IsDecimal(s) ==> Decimal(s, 0) >= 0 && AllDigits(s) && s[0] != '+'
    ensures AllDigits(s) && s != "" ==> IsDecimal(s)
  {
    if IsDecimal(s) {
      DecimalValue(s);
    }
  }

  lemma NothingNamed()
    ensures ParseUsize("") == None
  {
  }

  /** %n names the one job whose id is n, and nothing when there is none. */
  lemma NumberNamesTheJob(jobs: seq<Job>, n: nat)
    requires DistinctIds(jobs) && n <= USIZE_MAX
    ensures var r := Resolve(jobs, "%" + NatToString(n));
            && (r.Some? <==> HasId(jobs, n))
            && (forall k :: 0 <= k < |jobs| && jobs[k].id == n ==> r == Some(k))
  {
    hide Resolve;
    ResolveNumber(jobs, n);
  }

  lemma ResolveNumber(jobs: seq<Job>, n: nat)
    requires n <= USIZE_MAX
    ensures Resolve(jobs, "%" + NatToString(n)) == First(jobs, ById(n))
  {
    hide First, NatToString, ParseInt;
    var numeral := NatToString(n);
    var spec := "%" + numeral;
    ParseNat(n);
    assert spec[1..] == numeral && IsDigit(numeral[0]);
  }

  lemma ParseNat(n: nat)
    requires n <= USIZE_MAX
    ensures ParseUsize(NatToString(n)) == Some(n)
  {
    ParseIntToString(n, 0, USIZE_MAX);
  }

  const CURRENT_SPEC := ['%', '+']
  const OTHER_CURRENT_SPEC := ['%', '%']
  const PREVIOUS_SPEC := ['%', '-']

  lemma SpecialSpecs(jobs: seq<Job>)
    ensures Resolve(jobs, CURRENT_SPEC) == First(jobs, ByAnnotation(Current)) == Resolve(jobs, OTHER_CURRENT_SPEC)
    ensures Resolve(jobs, PREVIOUS_SPEC) == First(jobs, ByAnnotation(Previous))
  {
    assert CURRENT_SPEC[1..] == ['+'] && OTHER_CURRENT_SPEC[1..] == ['%'] && PREVIOUS_SPEC[1..] == ['-'];
  }

  lemma FirstPreviousAt(jobs: seq<Job>, c: nat)
    requires c < |jobs| && jobs[c].annotation.Previous?
    ensures First(jobs, ByAnnotation(Previous)) == Some(c) <==> forall k :: 0 <= k < c ==> !jobs[k].annotation.Previous?
  {
    assert Fits(jobs[c], ByAnnotation(Previous));
    assert forall k :: 0 <= k < c ==> (Fits(jobs[k], ByAnnotation(Previous)) <==> jobs[k].annotation.Previous?);
  }

  lemma AddedBefore(jobs: seq<Job>, job: Job, id: nat)
    requires AtMostOneCurrent(jobs) && First(jobs, ByAnnotation(Current)).Some?
    ensures var (c, added) := (First(jobs, ByAnnotation(Current)).value, Added(jobs, job, id));
            && c < |added| && added[c].annotation.Previous?
            && forall k :: 0 <= k < c ==> added[k] == jobs[k]
  {
    DemotedIs(jobs);
  }

  /** After a job is added, the job that was current until then is the one %- names exactly when
      no older job was left annotated as previous. */
  lemma PreviousAfterAdd(jobs: seq<Job>, job: Job, id: nat)
    requires Sound(jobs) && First(jobs, ByAnnotation(Current)).Some?
    ensures var wasCurrent := First(jobs, ByAnnotation(Current));
            Resolve(Added(jobs, job, id), PREVIOUS_SPEC) == wasCurrent
            <==> forall k :: 0 <= k < wasCurrent.value ==> !jobs[k].annotation.Previous?
  {
    hide Resolve, Added, First, Fits;
    SpecialSpecs(Added(jobs, job, id));
    AddedBefore(jobs, job, id);
    FirstPreviousAt(Added(jobs, job, id), First(jobs, ByAnnotation(Current)).value);
  }

  /** With three jobs added %- names the first of them, not the second. */
  lemma PreviousIsTheOldest(a: Job, b: Job, c: Job)
    ensures Resolve(Added(Added(Added([], a, 1), b, 2), c, 3), PREVIOUS_SPEC) == Some(0)
  {
    hide Resolve;
    var one := Added([], a, 1);
    var two := Added(one, b, 2);
    var three := Added(two, c, 3);
    assert one == [a.(id := 1, annotation := Current)];
    assert two == [a.(id := 1, annotation := Previous), b.(id := 2, annotation := Current)];
    SpecialSpecs(three);
    assert three[0].annotation.Previous?;
  }

  /** After a job is added, %+ and %% name it. */
  lemma CurrentAfterAdd(jobs: seq<Job>, job: Job, id: nat)
    requires Sound(jobs)
    ensures Resolve(Added(jobs, job, id), CURRENT_SPEC) == Some(|jobs|)
    ensures Resolve(Added(jobs, job, id), OTHER_CURRENT_SPEC) == Some(|jobs|)
  {
    hide Resolve;
    DemotedIs(jobs);
    SpecialSpecs(Added(jobs, job, id));
    var added := Added(jobs, job, id);
    assert forall k :: 0 <= k < |jobs| ==> !added[k].annotation.Current?;
    assert added[|jobs|].annotation.Current?;
  }

  // ----- Polling -----

  /** The tasks left once those that are done, up to the first that is not, are removed. */
  function Drained(tasks: seq<Task>, oracle: Oracle): seq<Task> {
    if tasks == [] || oracle(tasks[0]).None? then tasks else Drained(tasks[1..], oracle)
  }

  function Polled(job: Job, oracle: Oracle): Job {
    var rest := Drained(job.tasks, oracle);
    job.(tasks := rest, state := if rest == [] then Done else job.state)
  }

  /** The outcome of a job is its last task's, once all tasks are done. */
  function PollResult(job: Job, oracle: Oracle): Option<Outcome> {
    if job.tasks != [] && Drained(job.tasks, oracle) == [] then oracle(job.tasks[|job.tasks| - 1]) else None
  }

  /** A job leaves the table when its tasks are done, or it was marked as done. */
  predicate Leaves(job: Job, oracle: Oracle) {
    Polled(job, oracle).state.Done?
  }

  lemma {:induction false} DrainedAll(tasks: seq<Task>, oracle: Oracle)
    ensures Drained(tasks, oracle) == [] <==> forall i :: 0 <= i < |tasks| ==> oracle(tasks[i]).Some?
  {
    if tasks != [] && oracle(tasks[0]).Some? {
      DrainedAll(tasks[1..], oracle);
      assert forall i :: 1 <= i < |tasks| ==> tasks[i] == tasks[1..][i - 1];
    }
  }

  /** Which jobs leave, and with what: all tasks are done, or the job was marked done; the
      outcome is the last task's, and plain success when no task is left to tell. */
  lemma LeavesExactly(job: Job, oracle: Oracle)
    ensures Leaves(job, oracle) <==> job.state.Done? || forall i :: 0 <= i < |job.tasks| ==> oracle(job.tasks[i]).Some?
    ensures PollResult(job, oracle).Some?
            <==> job.tasks != [] && forall i :: 0 <= i < |job.tasks| ==> oracle(job.tasks[i]).Some?
  {
    DrainedAll(job.tasks, oracle);
  }

  function Kept(jobs: seq<Job>, oracle: Oracle): seq<Job> {
    if jobs == [] then []
    else (if Leaves(jobs[0], oracle) then [] else [Polled(jobs[0], oracle)]) + Kept(jobs[1..], oracle)
  }

  datatype Finished = Finished(job: Job, outcome: Outcome)

  const SUCCESS := Exited(0)

  function Leaving(job: Job, oracle: Oracle): Finished {
    Finished(Polled(job, oracle), match PollResult(job, oracle) case Some(outcome) => outcome case None => SUCCESS)
  }

  function Returned(jobs: seq<Job>, oracle: Oracle): seq<Finished> {
    if jobs == [] then []
    else (if Leaves(jobs[0], oracle) then [Leaving(jobs[0], oracle)] else []) + Returned(jobs[1..], oracle)
  }

  function IdList(jobs: seq<Job>): (r: seq<nat>)
    ensures |r| == |jobs| && forall k :: 0 <= k < |r| ==> r[k] == jobs[k].id
  {
    seq(|jobs|, k requires 0 <= k < |jobs| => jobs[k].id)
  }

  function FinishedIds(finished: seq<Finished>): (r: seq<nat>)
    ensures |r| == |finished| && forall k :: 0 <= k < |r| ==> r[k] == finished[k].job.id
  {
    seq(|finished|, k requires 0 <= k < |finished| => finished[k].job.id)
  }

  /** Some elements of a list, in the order they have there. */
  predicate Subsequence(a: seq<nat>, b: seq<nat>)
    decreases |b|
  {
    if a == [] then true
    else b != [] && ((a[0] == b[0] && Subsequence(a[1..], b[1..])) || Subsequence(a, b[1..]))
  }

  lemma IdListCons(job: Job, jobs: seq<Job>)
    ensures IdList([job] + jobs) == [job.id] + IdList(jobs)
  {
  }

  lemma FinishedIdsCons(f: Finished, rest: seq<Finished>)
    ensures FinishedIds([f] + rest) == [f.job.id] + FinishedIds(rest)
  {
  }

  lemma SubsequenceCons(x: nat, a: seq<nat>, b: seq<nat>)
    requires Subsequence(a, b)
    ensures Subsequence([x] + a, [x] + b) && Subsequence(a, [x] + b)
  {
    assert ([x] + a)[1..] == a && ([x] + b)[1..] == b;
  }

  /** Polling splits the table: every job is either kept or returned, once, and both lists keep
      the order of the table. */
  lemma {:induction false} PollSplits(jobs: seq<Job>, oracle: Oracle)
    ensures var kept, returned := IdList(Kept(jobs, oracle)), FinishedIds(Returned(jobs, oracle));
            && multiset(kept) + multiset(returned) == multiset(IdList(jobs))
            && Subsequence(kept, IdList(jobs)) && Subsequence(returned, IdList(jobs))
  {
    hide Polled, Leaving, Leaves, Kept, Returned, Subsequence, IdList, FinishedIds;
    if jobs == [] {
      SplitNothing(oracle);
    } else {
      var rest := jobs[1..];
      PollSplits(rest, oracle);
      assert jobs == [jobs[0]] + rest;
      SplitStep(jobs[0], rest, oracle);
      SubsequenceCons(jobs[0].id, IdList(Kept(rest, oracle)), IdList(rest));
      SubsequenceCons(jobs[0].id, FinishedIds(Returned(rest, oracle)), IdList(rest));
    }
  }

  lemma SplitNothing(oracle: Oracle)
    ensures IdList([]) == IdList(Kept([], oracle)) == FinishedIds(Returned([], oracle)) == []
    ensures Subsequence([], [])
  {
  }

  lemma SplitStep(job: Job, rest: seq<Job>, oracle: Oracle)
    ensures IdList([job] + rest) == [job.id] + IdList(rest)
    ensures IdList(Kept([job] + rest, oracle))
         == if Leaves(job, oracle) then IdList(Kept(rest, oracle)) else [job.id] + IdList(Kept(rest, oracle))
    ensures FinishedIds(Returned([job] + rest, oracle))
         == if Leaves(job, oracle) then [job.id] + FinishedIds(Returned(rest, oracle))
           else FinishedIds(Returned(rest, oracle))
  {
    hide Leaves;
    assert ([job] + rest)[0] == job && ([job] + rest)[1..] == rest;
    IdListCons(job, rest);
    IdListCons(Polled(job, oracle), Kept(rest, oracle));
    FinishedIdsCons(Leaving(job, oracle), Returned(rest, oracle));
  }

  /** Every job that stays is a job that was there: same id, annotation and command, fewer tasks. */
  lemma {:induction false} KeptCameFrom(jobs: seq<Job>, oracle: Oracle)
    ensures forall j :: j in Kept(jobs, oracle) ==>
              exists k :: 0 <= k < |jobs| && j == Polled(jobs[k], oracle) && !Leaves(jobs[k], oracle)
  {
    hide Polled, Leaves;
    if jobs != [] {
      var rest := jobs[1..];
      KeptCameFrom(rest, oracle);
      forall j | j in Kept(rest, oracle)
        ensures exists k :: 0 <= k < |jobs| && j == Polled(jobs[k], oracle) && !Leaves(jobs[k], oracle)
      {
        var k :| 0 <= k < |rest| && j == Polled(rest[k], oracle) && !Leaves(rest[k], oracle);
        assert jobs[k + 1] == rest[k];
      }
    }
  }

  lemma SoundCons(job: Job, rest: seq<Job>)
    requires Sound(rest) && job.id >= 1
    requires forall j :: j in rest ==> j.id != job.id && !(j.annotation.Current? && job.annotation.Current?)
    ensures Sound([job] + rest)
  {
  }

  lemma {:induction false} PollKeepsSound(jobs: seq<Job>, oracle: Oracle)
    requires Sound(jobs)
    ensures Sound(Kept(jobs, oracle))
  {
    hide Leaves;
    if jobs != [] {
      var rest := jobs[1..];
      PollKeepsSound(rest, oracle);
      KeptCameFrom(rest, oracle);
      assert forall k :: 0 <= k < |rest| ==> rest[k] == jobs[k + 1];
      SoundCons(Polled(jobs[0], oracle), Kept(rest, oracle));
    }
  }

  // ----- Sweeping -----

  function WithTasks(jobs: seq<Job>): seq<Job> {
    if jobs == [] then [] else (if jobs[0].tasks == [] then [] else [jobs[0]]) + WithTasks(jobs[1..])
  }

  function WithoutTasks(jobs: seq<Job>): seq<Job> {
    if jobs == [] then [] else (if jobs[0].tasks == [] then [jobs[0]] else []) + WithoutTasks(jobs[1..])
  }

  lemma {:induction false} SweepSplits(jobs: seq<Job>)
    ensures multiset(WithTasks(jobs)) + multiset(WithoutTasks(jobs)) == multiset(jobs)
    ensures forall j :: j in WithTasks(jobs) <==> j in jobs && j.tasks != []
  {
    if jobs != [] {
      SweepSplits(jobs[1..]);
      assert jobs == [jobs[0]] + jobs[1..];
    }
  }

  lemma {:induction false} SweepKeepsSound(jobs: seq<Job>)
    requires Sound(jobs)
    ensures Sound(WithTasks(jobs))
  {
    if jobs != [] {
      var rest := jobs[1..];
      SweepKeepsSound(rest);
      SweepSplits(rest);
      assert forall k :: 0 <= k < |rest| ==> rest[k] == jobs[k + 1];
      if jobs[0].tasks != [] {
        SoundCons(jobs[0], WithTasks(rest));
      }
    }
  }

  // ----- Runs -----

  /** Waiting on a job, stopping it or continuing it changes its tasks and its state. */
  datatype Op =
    | Add(job: Job, id: nat)
    | Poll(oracle: Oracle)
    | Sweep
    | Change(k: nat, tasks: seq<Task>, state: JobState)

  function Apply(jobs: seq<Job>, op: Op): seq<Job> {
    match op
    case Add(job, id) => Added(jobs, job, id)
    case Poll(oracle) => Kept(jobs, oracle)
    case Sweep => WithTasks(jobs)
    case Change(k, tasks, state) =>
      if k < |jobs| then jobs[k := jobs[k].(tasks := tasks, state := state)] else jobs
  }

  function RunAll(jobs: seq<Job>, ops: seq<Op>): seq<Job>
    decreases |ops|
  {
    if ops == [] then jobs else RunAll(Apply(jobs, ops[0]), ops[1..])
  }

  /** Every job added gets the smallest id that is free at the time. */
  ghost predicate FreshIds(jobs: seq<Job>, ops: seq<Op>)
    decreases |ops|
  {
    ops == [] || ((ops[0].Add? ==> IsNextId(jobs, ops[0].id)) && FreshIds(Apply(jobs, ops[0]), ops[1..]))
  }

  /** Whatever jobs are added, polled, swept and changed: ids stay positive and distinct, and at
      most one job is current. */
  lemma {:induction false} RunKeepsSound(jobs: seq<Job>, ops: seq<Op>)
    requires Sound(jobs) && FreshIds(jobs, ops)
    ensures Sound(RunAll(jobs, ops))
    decreases |ops|
  {
    hide IsNextId;
    if ops != [] {
      match ops[0] {
        case Add(job, id) => AddKeepsSound(jobs, job, id);
        case Poll(oracle) => PollKeepsSound(jobs, oracle);
        case Sweep => SweepKeepsSound(jobs);
        case Change(_, _, _) =>
      }
      RunKeepsSound(Apply(jobs, ops[0]), ops[1..]);
    }
  }

  // ----- The manager -----

  lemma PolledStep(job: Job, oracle: Oracle)
    requires job.tasks != [] && oracle(job.tasks[0]).Some?
    ensures Polled(job, oracle) == Polled(job.(tasks := job.tasks[1..]), oracle)
    ensures PollResult(job, oracle)
         == if |job.tasks| == 1 then oracle(job.tasks[0]) else PollResult(job.(tasks := job.tasks[1..]), oracle)
  {
  }

  /** Polls a job's tasks in order, stopping at the first that is not done. */
  method PollDone(job0: Job, oracle: Oracle) returns (job: Job, result: Option<Outcome>)
    ensures job == Polled(job0, oracle) && result == PollResult(job0, oracle)
  {
    hide Polled, PollResult;
    job, result := job0, None;
    if job0.tasks == [] {
      AllDone(job0, oracle);
    }
    while job.tasks != []
      invariant Polled(job, oracle) == Polled(job0, oracle)
      invariant if job.tasks == [] then result == PollResult(job0, oracle)
                else PollResult(job, oracle) == PollResult(job0, oracle)
      decreases |job.tasks|
    {
      var polled := oracle(job.tasks[0]);
      if polled.None? {
        NotDone(job, oracle);
        return job, None;
      }
      PolledStep(job, oracle);
      job := job.(tasks := job.tasks[1..]);
      result := polled;
    }
    AllDone(job, oracle);
    job := job.(state := Done);
  }

  lemma NotDone(job: Job, oracle: Oracle)
    requires job.tasks != [] && oracle(job.tasks[0]).None?
    ensures Polled(job, oracle) == job && PollResult(job, oracle) == None
  {
  }

  lemma AllDone(job: Job, oracle: Oracle)
    requires job.tasks == []
    ensures Polled(job, oracle) == job.(state := Done) && PollResult(job, oracle) == None
  {
  }

  class JobManager {
    var jobs: seq<Job>

    constructor ()
      ensures jobs == [] && Sound(jobs)
    {
      jobs := [];
    }

    /** Counts up from one; the jobs cannot hold all ids up to one more than their number. */
    method NextId() returns (id: nat)
      ensures IsNextId(jobs, id) && id <= |jobs| + 1
    {
      id := 1;
      SmallIdsFit(jobs, 0);
      var used := IsUsed(id);
      while used
        invariant used <==> HasId(jobs, id)
        invariant 1 <= id <= |jobs| + 1
        invariant forall k :: 1 <= k < id ==> HasId(jobs, k)
        decreases |jobs| + 1 - id
      {
        assert forall k :: 1 <= k <= id ==> HasId(jobs, k);
        SmallIdsFit(jobs, id);
        id := id + 1;
        used := IsUsed(id);
      }
    }

    method IsUsed(id: nat) returns (used: bool)
      ensures used <==> HasId(jobs, id)
    {
      used := false;
      for i := 0 to |jobs|
        invariant forall k :: 0 <= k < i ==> jobs[k].id != id
      {
        if jobs[i].id == id {
          return true;
        }
      }
    }

    /** Demotes the first current job. */
    method DemoteCurrent()
      modifies this
      ensures jobs == Demoted(old(jobs))
    {
      hide Demoted;
      ghost var jobs0 := jobs;
      var i := 0;
      NoneDemotedYet(jobs);
      while i < |jobs| && !jobs[i].annotation.Current?
        invariant i <= |jobs| && jobs == jobs0
        invariant Demoted(jobs0) == jobs0[..i] + Demoted(jobs0[i..])
      {
        DemoteStep(jobs0, i);
        i := i + 1;
      }
      if i < |jobs| {
        DemoteStep(jobs0, i);
        jobs := jobs[i := jobs[i].(annotation := Previous)];
      } else {
        assert jobs0[i..] == [] && jobs0[..i] == jobs0;
      }
      assert |jobs0[i..]| == 0 ==> Demoted(jobs0[i..]) == [];
    }

    /** Adds a job at the end; its id and annotation are replaced. */
    method AddAsCurrent(job: Job) returns (added: Job)
      modifies this
      ensures IsNextId(old(jobs), added.id) && added.id <= |old(jobs)| + 1
      ensures added == job.(id := added.id, annotation := Current)
      ensures jobs == Apply(old(jobs), Add(job, added.id))
      ensures Sound(old(jobs)) ==> Sound(jobs)
    {
      hide IsNextId, Demoted, Sound;
      ghost var jobs0 := jobs;
      DemoteCurrent();
      var id := NextId();
      SameIds(jobs0, id);
      if Sound(jobs0) {
        AddKeepsSound(jobs0, job, id);
      }
      added := job.(id := id, annotation := Current);
      jobs := jobs + [added];
    }

    method ResolveJobSpec(spec: string) returns (k: Option<nat>)
      ensures k == Resolve(jobs, spec)
    {
      if spec == "" || spec[0] != '%' {
        return None;
      }
      var remainder := spec[1..];
      if remainder == ['%'] || remainder == ['+'] {
        k := FindJob(ByAnnotation(Current));
      } else if remainder == ['-'] {
        k := FindJob(ByAnnotation(Previous));
      } else if AllDigits(remainder) {
        match ParseUsize(remainder)
        case None => k := None;
        case Some(id) => k := FindJob(ById(id));
      } else {
        k := None;
      }
    }

    method FindJob(wanted: Wanted) returns (k: Option<nat>)
      ensures k == First(jobs, wanted)
    {
      for i := 0 to |jobs|
        invariant forall j :: 0 <= j < i ==> !Fits(jobs[j], wanted)
      {
        if Fits(jobs[i], wanted) {
          return Some(i);
        }
      }
      k := None;
    }

    /** Takes the finished jobs out of the table, with their outcomes. */
    method Poll(oracle: Oracle) returns (results: seq<Finished>)
      modifies this
      ensures jobs == Apply(old(jobs), Op.Poll(oracle)) && results == Returned(old(jobs), oracle)
    {
      hide Polled, PollResult, Leaves, Kept, Returned;
      results := [];
      ghost var jobs0, n: nat := jobs, 0;
      var i := 0;
      PollStart(jobs0, oracle);
      while i != |jobs|
        invariant i <= |jobs| && n <= |jobs0|
        invariant jobs[i..] == jobs0[n..]
        invariant Kept(jobs0, oracle) == jobs[..i] + Kept(jobs0[n..], oracle)
        invariant Returned(jobs0, oracle) == results + Returned(jobs0[n..], oracle)
        decreases |jobs| - i
      {
        RestStep(jobs, i, jobs0, n);
        PollStep(jobs0, n, oracle, jobs[..i], results);
        n := n + 1;
        var job, result := PollDone(jobs[i], oracle);
        StateTellsLeaving(jobs[i], oracle);
        TakenOut(jobs, i, job);
        if result.Some? {
          results := results + [Finished(job, result.value)];
          jobs := jobs[..i] + jobs[i + 1..];
        } else if job.state.Done? {
          results := results + [Finished(job, SUCCESS)];
          jobs := jobs[..i] + jobs[i + 1..];
        } else {
          jobs := jobs[i := job];
          i := i + 1;
        }
      }
      PollEnd(jobs, jobs0[n..], oracle, results);
    }

    method SweepCompletedJobs() returns (completed: seq<Job>)
      modifies this
      ensures jobs == Apply(old(jobs), Sweep) && completed == WithoutTasks(old(jobs))
    {
      hide WithTasks, WithoutTasks;
      completed := [];
      ghost var jobs0, n: nat := jobs, 0;
      var i := 0;
      SweepStart(jobs0);
      while i != |jobs|
        invariant i <= |jobs| && n <= |jobs0|
        invariant jobs[i..] == jobs0[n..]
        invariant WithTasks(jobs0) == jobs[..i] + WithTasks(jobs0[n..])
        invariant WithoutTasks(jobs0) == completed + WithoutTasks(jobs0[n..])
        decreases |jobs| - i
      {
        RestStep(jobs, i, jobs0, n);
        SweepStep(jobs0, n, jobs[..i], completed);
        TakenOut(jobs, i, jobs[i]);
        n := n + 1;
        if jobs[i].tasks == [] {
          completed := completed + [jobs[i]];
          jobs := jobs[..i] + jobs[i + 1..];
        } else {
          i := i + 1;
        }
      }
      SweepEnd(jobs, jobs0[n..], completed);
    }
  }

  lemma RestStep(jobs: seq<Job>, i: nat, jobs0: seq<Job>, n: nat)
    requires i < |jobs| && n <= |jobs0| && jobs[i..] == jobs0[n..]
    ensures n < |jobs0| && jobs[i] == jobs0[n] && jobs[i + 1..] == jobs0[n + 1..]
  {
    assert |jobs[i..]| == |jobs0[n..]|;
    assert jobs[i..][0] == jobs0[n..][0];
    assert jobs[i..][1..] == jobs0[n..][1..];
  }

  /** The list with a job removed, and with a job replaced. */
  lemma TakenOut(jobs: seq<Job>, i: nat, job: Job)
    requires i < |jobs|
    ensures var less := jobs[..i] + jobs[i + 1..];
            |less| == |jobs| - 1 && less[..i] == jobs[..i] && less[i..] == jobs[i + 1..]
    ensures var same := jobs[i := job];
            same[..i + 1] == jobs[..i] + [job] && same[i + 1..] == jobs[i + 1..]
    ensures jobs[..i + 1] == jobs[..i] + [jobs[i]]
  {
  }

  lemma PollStart(jobs: seq<Job>, oracle: Oracle)
    ensures jobs[0..] == jobs
    ensures Kept(jobs, oracle) == jobs[..0] + Kept(jobs, oracle)
    ensures Returned(jobs, oracle) == [] + Returned(jobs, oracle)
  {
  }

  lemma PollEnd(jobs: seq<Job>, rest: seq<Job>, oracle: Oracle, results: seq<Finished>)
    requires rest == []
    ensures jobs[..|jobs|] + Kept(rest, oracle) == jobs && results + Returned(rest, oracle) == results
  {
  }

  lemma SweepStart(jobs: seq<Job>)
    ensures jobs[0..] == jobs
    ensures WithTasks(jobs) == jobs[..0] + WithTasks(jobs) && WithoutTasks(jobs) == [] + WithoutTasks(jobs)
  {
  }

  lemma SweepEnd(jobs: seq<Job>, rest: seq<Job>, completed: seq<Job>)
    requires rest == []
    ensures jobs[..|jobs|] + WithTasks(rest) == jobs && completed + WithoutTasks(rest) == completed
  {
  }

  lemma SweepStep(jobs: seq<Job>, n: nat, kept: seq<Job>, completed: seq<Job>)
    requires n < |jobs|
    ensures kept + WithTasks(jobs[n..])
         == (if jobs[n].tasks == [] then kept else kept + [jobs[n]]) + WithTasks(jobs[n + 1..])
    ensures completed + WithoutTasks(jobs[n..])
         == (if jobs[n].tasks == [] then completed + [jobs[n]] else completed) + WithoutTasks(jobs[n + 1..])
  {
    assert jobs[n..][0] == jobs[n] && jobs[n..][1..] == jobs[n + 1..];
  }

  lemma NoneDemotedYet(jobs: seq<Job>)
    ensures Demoted(jobs) == jobs[..0] + Demoted(jobs[0..])
  {
    assert jobs[0..] == jobs;
  }

  lemma DemoteStep(jobs: seq<Job>, i: nat)
    requires i < |jobs|
    ensures !jobs[i].annotation.Current? ==>
              jobs[..i] + Demoted(jobs[i..]) == jobs[..i + 1] + Demoted(jobs[i + 1..])
    ensures jobs[i].annotation.Current? ==>
              jobs[..i] + Demoted(jobs[i..]) == jobs[i := jobs[i].(annotation := Previous)]
  {
    assert jobs[i..][0] == jobs[i] && jobs[i..][1..] == jobs[i + 1..];
  }

  /** Demoting changes no id. */
  lemma SameIds(jobs: seq<Job>, id: nat)
    ensures IsNextId(Demoted(jobs), id) <==> IsNextId(jobs, id)
  {
    DemotedIds(jobs);
    forall k ensures HasId(Demoted(jobs), k) <==> HasId(jobs, k) {
      if HasId(jobs, k) {
        var i :| 0 <= i < |jobs| && jobs[i].id == k;
        assert Demoted(jobs)[i].id == k;
      }
    }
  }

  lemma {:induction false} DemotedIds(jobs: seq<Job>)
    ensures forall k :: 0 <= k < |jobs| ==> Demoted(jobs)[k].id == jobs[k].id
  {
    if jobs != [] && !jobs[0].annotation.Current? {
      DemotedIds(jobs[1..]);
    }
  }

  lemma StateTellsLeaving(job: Job, oracle: Oracle)
    ensures Leaves(job, oracle) <==> Polled(job, oracle).state.Done?
    ensures PollResult(job, oracle).Some? ==> Leaves(job, oracle)
  {
  }

  lemma PollStep(jobs: seq<Job>, n: nat, oracle: Oracle, kept: seq<Job>, results: seq<Finished>)
    requires n < |jobs|
    ensures var job := jobs[n];
            && kept + Kept(jobs[n..], oracle)
               == (if Leaves(job, oracle) then kept else kept + [Polled(job, oracle)]) + Kept(jobs[n + 1..], oracle)
            && results + Returned(jobs[n..], oracle)
               == (if Leaves(job, oracle) then results + [Leaving(job, oracle)] else results)
                 + Returned(jobs[n + 1..], oracle)
  {
    hide Leaves, Polled, Leaving;
    assert jobs[n..][0] == jobs[n] && jobs[n..][1..] == jobs[n + 1..];
  }
}
