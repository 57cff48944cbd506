/**
 The durable log of CI repair attempts: an append-only list of issue comments. An invocation
 reads the log, closes attempts left running, starts the next attempt and finally records its
 outcome; it may die between any two comments.
 */
module AttemptLog {
  import opened Wrappers

  /** What a comment was posted for. The scan of the log does not see this, only number and status. */
  datatype Role = Start | Interrupt | Finish

  /** `Other` stands for every comment that is not a readable attempt record of this workflow. */
  datatype Comment = Attempt(number: nat, status: string, role: Role) | Other

  const RUNNING := "running"
  const INTERRUPTED := "interrupted"

  /** A dictionary with its keys in order of first insertion. */
  type Statuses = seq<(nat, string)>

  function Assign(statuses: Statuses, number: nat, status: string): Statuses {
    if statuses == [] then [(number, status)]
    else if statuses[0].0 == number then [(number, status)] + statuses[1..]
    else [statuses[0]] + Assign(statuses[1..], number, status)
  }

  /** The last recorded status of every attempt. */
  function Scan(log: seq<Comment>): Statuses {
    if log == [] then []
    else
      var last := log[|log| - 1];
      var before := Scan(log[..|log| - 1]);
      if last.Other? then before else Assign(before, last.number, last.status)
  }

  function Interrupts(statuses: Statuses): seq<Comment> {
    if statuses == [] then []
    else (if statuses[0].1 == RUNNING then [Attempt(statuses[0].0, INTERRUPTED, Interrupt)] else []) + Interrupts(statuses[1..])
  }

  function MaxNumber(statuses: Statuses): nat {
    if statuses == [] then 0
    else if statuses[0].0 >= MaxNumber(statuses[1..]) then statuses[0].0 else MaxNumber(statuses[1..])
  }

  /** How the workflow task ended; the manifest status is whatever string the run manifest holds. */
  datatype Outcome = Raised(checkpoints: nat) | Returned(checkpoints: nat, manifestStatus: Option<string>, exitCode: int)

  function FinalStatus(outcome: Outcome): string {
    if outcome.Raised? then "failed"
    else if outcome.manifestStatus.Some? then outcome.manifestStatus.value
    else if outcome.exitCode == 0 then "completed" else "failed"
  }

  function Checkpoints(n: nat): seq<Comment> {
    if n == 0 then [] else [Other] + Checkpoints(n - 1)
  }

  /** Everything one invocation posts, in order, if it is not cut short. */
  function Posts(log: seq<Comment>, outcome: Outcome): seq<Comment> {
    var statuses := Scan(log);
    var number := MaxNumber(statuses) + 1;
    Interrupts(statuses) + [Attempt(number, RUNNING, Start)] + Checkpoints(outcome.checkpoints) +
    [Attempt(number, FinalStatus(outcome), Finish)]
  }

  /** What gets posted of the comments by a process that dies after `lifetime` of them. */
  function Posted(cs: seq<Comment>, lifetime: nat): seq<Comment> {
    if lifetime >= |cs| then cs else cs[..lifetime]
  }

  // ---------------------------------------------------------------------------
  // The protocol as a state machine.

  /** The log, and what the invocation under way has still to post; none is under way when nothing is pending. */
  datatype State = State(log: seq<Comment>, pending: seq<Comment>)

  datatype Step =
    | Begin(outcome: Outcome)  // a new invocation reads the log
    | Post                     // its next comment is posted
    | Crash                    // it dies; nothing more is posted
    | Foreign                  // somebody else comments

  predicate Enabled(s: State, step: Step) {
    match step
    case Begin(_) => s.pending == []
    case Post => s.pending != []
    case Crash => true
    case Foreign => true
  }

  function Next(s: State, step: Step): State
    requires Enabled(s, step)
  {
    match step
    case Begin(outcome) => State(s.log, Posts(s.log, outcome))
    case Post => State(s.log + [s.pending[0]], s.pending[1..])
    case Crash => State(s.log, [])
    case Foreign => State(s.log + [Other], s.pending)
  }

  /** The state a run reaches from the empty log; steps that are not enabled do nothing. */
  ghost function After(steps: seq<Step>): State {
    if steps == [] then State([], [])
    else
      var before, step := After(steps[..|steps| - 1]), steps[|steps| - 1];
      if Enabled(before, step) then Next(before, step) else before
  }

  // ---------------------------------------------------------------------------
  // Orderly logs.

  /** Attempts started so far, and of the latest one: whether it counts as running, and whether it was closed. */
  datatype Phase = Phase(started: nat, running: bool, closed: bool)

  /**
   Reads a log strictly: attempts start one after the other, only when none is running;
   only the latest attempt is closed, by at most one finish and, while it counts as running,
   at most one interrupt. Any other log has no phase.
   */
  ghost function PhaseOf(log: seq<Comment>): Option<Phase> {
    if log == [] then Some(Phase(0, false, true))
    else
      var before := PhaseOf(log[..|log| - 1]);
      if before.None? then None else Advance(before.value, log[|log| - 1])
  }

  ghost function Advance(p: Phase, c: Comment): Option<Phase> {
    if c.Other? then Some(p)
    else match c.role
      case Start =>
        if c.number == p.started + 1 && c.status == RUNNING && !p.running then Some(Phase(c.number, true, false)) else None
      case Interrupt =>
        if c.number == p.started && c.status == INTERRUPTED && p.running then Some(Phase(c.number, false, true)) else None
      case Finish =>
        if c.number == p.started && p.running && !p.closed then Some(Phase(c.number, c.status == RUNNING, true)) else None
  }

  ghost predicate Orderly(log: seq<Comment>) {
    PhaseOf(log).Some?
  }

  lemma {:induction false} PhaseOfLast(log: seq<Comment>, c: Comment)
    ensures PhaseOf(log + [c]) == if PhaseOf(log).None? then None else Advance(PhaseOf(log).value, c)
  {
    assert (log + [c])[..|log|] == log;
  }

  lemma {:induction false} PrefixOrderly(log: seq<Comment>, more: seq<Comment>)
    requires Orderly(log + more)
    ensures Orderly(log)
    decreases |more|
  {
    if more == [] {
      assert log + more == log;
    } else {
      var front := more[..|more| - 1];
      assert (log + more)[..|log + more| - 1] == log + front;
      PrefixOrderly(log, front);
    }
  }

  /** What the scan of an orderly log yields: attempts 1 to n in order, none running but possibly the last. */
  ghost predicate Describes(statuses: Statuses, p: Phase) {
    && |statuses| == p.started
    && (forall i :: 0 <= i < |statuses| ==> statuses[i].0 == i + 1)
    && (forall i :: 0 <= i < |statuses| - 1 ==> statuses[i].1 != RUNNING)
    && (if |statuses| == 0 then !p.running else (statuses[|statuses| - 1].1 == RUNNING <==> p.running))
  }

  lemma {:induction false} AssignNew(statuses: Statuses, number: nat, status: string)
    requires forall i :: 0 <= i < |statuses| ==> statuses[i].0 != number
    ensures Assign(statuses, number, status) == statuses + [(number, status)]
  {
    if statuses != [] {
      AssignNew(statuses[1..], number, status);
    }
  }

  lemma {:induction false} AssignAt(statuses: Statuses, k: nat, number: nat, status: string)
    requires k < |statuses| && statuses[k].0 == number
    requires forall i :: 0 <= i < k ==> statuses[i].0 != number
    ensures Assign(statuses, number, status) == statuses[k := (number, status)]
  {
    if k > 0 {
      AssignAt(statuses[1..], k - 1, number, status);
    }
  }

  lemma {:induction false} ScanDescribes(log: seq<Comment>)
    requires Orderly(log)
    ensures Describes(Scan(log), PhaseOf(log).value)
  {
    if log != [] {
      var front, last := log[..|log| - 1], log[|log| - 1];
      ScanDescribes(front);
      var statuses := Scan(front);
      if last.Attempt? {
        if last.role.Start? {
          AssignNew(statuses, last.number, last.status);
        } else {
          AssignAt(statuses, |statuses| - 1, last.number, last.status);
        }
      }
    }
  }

  lemma {:induction false} MaxOfDescribed(statuses: Statuses, first: nat)
    requires forall i :: 0 <= i < |statuses| ==> statuses[i].0 == first + i
    ensures MaxNumber(statuses) == if statuses == [] then 0 else first + |statuses| - 1
  {
    if statuses != [] {
      MaxOfDescribed(statuses[1..], first + 1);
    }
  }

  lemma {:induction false} InterruptsOfDescribed(statuses: Statuses)
    requires forall i :: 0 <= i < |statuses| - 1 ==> statuses[i].1 != RUNNING
    ensures Interrupts(statuses) ==
            if statuses != [] && statuses[|statuses| - 1].1 == RUNNING
            then [Attempt(statuses[|statuses| - 1].0, INTERRUPTED, Interrupt)] else []
  {
    if statuses != [] {
      InterruptsOfDescribed(statuses[1..]);
    }
  }

  lemma {:induction false} CheckpointsKeepPhase(log: seq<Comment>, n: nat)
    ensures PhaseOf(log + Checkpoints(n)) == PhaseOf(log)
    decreases n
  {
    if n == 0 {
      assert log + Checkpoints(n) == log;
    } else {
      PhaseOfLast(log, Other);
      CheckpointsKeepPhase(log + [Other], n - 1);
      assert log + Checkpoints(n) == (log + [Other]) + Checkpoints(n - 1);
    }
  }

  /** On an orderly log an invocation interrupts at most the latest attempt and starts the next one. */
  lemma {:induction false} PostsOnOrderlyLog(log: seq<Comment>, outcome: Outcome)
    requires Orderly(log)
    ensures var p := PhaseOf(log).value;
            Posts(log, outcome) ==
              (if p.running then [Attempt(p.started, INTERRUPTED, Interrupt)] else []) +
              [Attempt(p.started + 1, RUNNING, Start)] + Checkpoints(outcome.checkpoints) +
              [Attempt(p.started + 1, FinalStatus(outcome), Finish)]
  {
    ScanDescribes(log);
    MaxOfDescribed(Scan(log), 1);
    InterruptsOfDescribed(Scan(log));
  }

  /** A whole invocation leaves the log orderly, with its attempt running only if the manifest says so. */
  lemma {:induction false} InvocationKeepsOrder(log: seq<Comment>, outcome: Outcome)
    requires Orderly(log)
    ensures PhaseOf(log + Posts(log, outcome)) ==
            Some(Phase(PhaseOf(log).value.started + 1, FinalStatus(outcome) == RUNNING, true))
  {
    var p := PhaseOf(log).value;
    PostsOnOrderlyLog(log, outcome);
    var interrupts := if p.running then [Attempt(p.started, INTERRUPTED, Interrupt)] else [];
    var start, finish := Attempt(p.started + 1, RUNNING, Start), Attempt(p.started + 1, FinalStatus(outcome), Finish);
    AttemptPhases(log, interrupts, start, outcome.checkpoints, finish);
  }

  lemma {:induction false} AttemptPhases(log: seq<Comment>, interrupts: seq<Comment>, start: Comment, checkpoints: nat, finish: Comment)
    requires Orderly(log) && start.Attempt? && finish.Attempt? && start.role == Start && finish.role == Finish
    requires start.status == RUNNING && start.number == finish.number == PhaseOf(log).value.started + 1
    requires interrupts == if PhaseOf(log).value.running
                           then [Attempt(PhaseOf(log).value.started, INTERRUPTED, Interrupt)] else []
    ensures PhaseOf(log + (interrupts + [start] + Checkpoints(checkpoints) + [finish])) ==
            Some(Phase(start.number, finish.status == RUNNING, true))
  {
    if interrupts == [] {
      assert log + interrupts == log;
    } else {
      PhaseOfLast(log, interrupts[0]);
    }
    PhaseOfLast(log + interrupts, start);
    CheckpointsKeepPhase(log + interrupts + [start], checkpoints);
    PhaseOfLast(log + interrupts + [start] + Checkpoints(checkpoints), finish);
    Regroup(log, interrupts, [start], Checkpoints(checkpoints), [finish]);
  }

  lemma {:induction false} Regroup<T>(a: seq<T>, b: seq<T>, c: seq<T>, d: seq<T>, e: seq<T>)
    ensures a + (b + c + d + e) == a + b + c + d + e
  {
  }

  /** Comments of others do not disturb what is still to be posted. */
  lemma {:induction false} ForeignIsHarmless(log: seq<Comment>, pending: seq<Comment>)
    ensures PhaseOf(log + [Other] + pending) == PhaseOf(log + pending)
    decreases |pending|
  {
    hide PhaseOf;
    if pending == [] {
      assert log + [Other] + pending == log + [Other] && log + pending == log;
      PhaseOfLast(log, Other);
    } else {
      var front, last := pending[..|pending| - 1], pending[|pending| - 1];
      ForeignIsHarmless(log, front);
      PhaseOfLast(log + front, last);
      PhaseOfLast(log + [Other] + front, last);
      assert log + pending == log + front + [last];
      assert log + [Other] + pending == log + [Other] + front + [last];
    }
  }

  /** In every reachable state the log is orderly, and stays so as the pending comments are posted. */
  lemma {:induction false} ReachableIsOrderly(steps: seq<Step>)
    ensures Orderly(After(steps).log + After(steps).pending) && Orderly(After(steps).log)
    decreases |steps|
  {
    var s := After(steps);
    if steps == [] {
      assert s.log + s.pending == [];
    } else {
      var before, step := After(steps[..|steps| - 1]), steps[|steps| - 1];
      ReachableIsOrderly(steps[..|steps| - 1]);
      if Enabled(before, step) {
        match step {
          case Begin(outcome) => InvocationKeepsOrder(before.log, outcome);
          case Post => assert s.log + s.pending == before.log + before.pending;
          case Crash => assert s.log + s.pending == before.log;
          case Foreign => ForeignIsHarmless(before.log, before.pending);
        }
      }
    }
    PrefixOrderly(s.log, s.pending);
  }

  // ---------------------------------------------------------------------------
  // What an orderly log means to its readers.

  ghost function StartsOf(log: seq<Comment>): seq<nat> {
    if log == [] then []
    else
      var last := log[|log| - 1];
      StartsOf(log[..|log| - 1]) + if last.Attempt? && last.role == Start then [last.number] else []
  }

  /** The status a reader of the whole log finds for an attempt. */
  ghost function LatestStatus(log: seq<Comment>, number: nat): Option<string> {
    if log == [] then None
    else
      var last := log[|log| - 1];
      if last.Attempt? && last.number == number then Some(last.status) else LatestStatus(log[..|log| - 1], number)
  }

  lemma {:induction false} OrderlyStarts(log: seq<Comment>)
    requires Orderly(log)
    ensures |StartsOf(log)| == PhaseOf(log).value.started
    ensures forall i :: 0 <= i < |StartsOf(log)| ==> StartsOf(log)[i] == i + 1
  {
    if log != [] {
      OrderlyStarts(log[..|log| - 1]);
    }
  }

  lemma {:induction false} OrderlyStatuses(log: seq<Comment>, number: nat)
    requires Orderly(log)
    ensures var p := PhaseOf(log).value;
            && (LatestStatus(log, number).Some? <==> 1 <= number <= p.started)
            && (LatestStatus(log, number) == Some(RUNNING) <==> p.running && number == p.started)
            && (p.running ==> p.started >= 1)
  {
    if log != [] {
      OrderlyStatuses(log[..|log| - 1], number);
    }
  }

  /** Every comment of an orderly log is about an attempt no later than the started ones, and later comments never go back. */
  lemma {:induction false} OrderlyNumbers(log: seq<Comment>, i: nat, j: nat)
    requires Orderly(log) && i < |log| && log[i].Attempt?
    ensures 1 <= log[i].number <= PhaseOf(log).value.started
    ensures i < j < |log| && log[j].Attempt? ==> log[i].number <= log[j].number
  {
    var front, last := log[..|log| - 1], log[|log| - 1];
    if i < |front| {
      OrderlyNumbers(front, i, j);
    } else {
      OrderlyStatuses(front, 0);
    }
  }

  /** Before the comment that starts an attempt, no attempt is running. */
  lemma {:induction false} NothingRunsAtStart(log: seq<Comment>, j: nat, number: nat)
    requires Orderly(log) && j < |log| && log[j].Attempt? && log[j].role == Start
    ensures LatestStatus(log[..j], number) != Some(RUNNING)
    ensures LatestStatus(log[..j], number).Some? <==> 1 <= number < log[j].number
  {
    assert log[..j] + log[j..] == log;
    assert log[..j + 1] + log[j + 1..] == log;
    PrefixOrderly(log[..j + 1], log[j + 1..]);
    assert log[..j + 1] == log[..j] + [log[j]];
    PhaseOfLast(log[..j], log[j]);
    OrderlyStatuses(log[..j], number);
  }

  /**
   The safety of the log, in every state any run reaches, whatever crashes happened:
   attempts are numbered 1..n and started once each in that order; at most the latest is
   running; when an attempt starts, every earlier one is known and no longer running; and no
   comment after it is about an earlier attempt.
   */
  lemma {:induction false} LogIsSafe(steps: seq<Step>, s: State)
    requires s == After(steps)
    ensures var n := |StartsOf(s.log)|;
            && (forall i :: 0 <= i < n ==> StartsOf(s.log)[i] == i + 1)
            && (forall k: nat :: LatestStatus(s.log, k).Some? <==> 1 <= k <= n)
            && (forall k: nat :: LatestStatus(s.log, k) == Some(RUNNING) ==> k == n)
    ensures forall j :: 0 <= j < |s.log| && s.log[j].Attempt? && s.log[j].role == Start ==>
              (forall k :: 1 <= k < s.log[j].number ==>
                 LatestStatus(s.log[..j], k).Some? && LatestStatus(s.log[..j], k) != Some(RUNNING)) &&
              (forall l :: j < l < |s.log| && s.log[l].Attempt? ==> s.log[j].number <= s.log[l].number)
  {
    ReachableIsOrderly(steps);
    OrderlyStarts(s.log);
    forall k: nat
      ensures LatestStatus(s.log, k).Some? <==> 1 <= k <= |StartsOf(s.log)|
      ensures LatestStatus(s.log, k) == Some(RUNNING) ==> k == |StartsOf(s.log)|
    {
      OrderlyStatuses(s.log, k);
    }
    forall j | 0 <= j < |s.log| && s.log[j].Attempt? && s.log[j].role == Start
      ensures forall k :: 1 <= k < s.log[j].number ==>
                LatestStatus(s.log[..j], k).Some? && LatestStatus(s.log[..j], k) != Some(RUNNING)
      ensures forall l :: j < l < |s.log| && s.log[l].Attempt? ==> s.log[j].number <= s.log[l].number
    {
      forall k | 1 <= k < s.log[j].number
        ensures LatestStatus(s.log[..j], k).Some? && LatestStatus(s.log[..j], k) != Some(RUNNING)
      {
        NothingRunsAtStart(s.log, j, k);
      }
      forall l | j < l < |s.log| && s.log[l].Attempt? ensures s.log[j].number <= s.log[l].number {
        OrderlyNumbers(s.log, j, l);
      }
    }
  }

  /** An undisturbed invocation leaves its attempt closed for good iff the recorded status is not `running`. */
  lemma {:induction false} FinishedAttemptIsTerminal(log: seq<Comment>, outcome: Outcome)
    requires Orderly(log)
    ensures var after := log + Posts(log, outcome);
            var number := PhaseOf(log).value.started + 1;
            && LatestStatus(after, number) == Some(FinalStatus(outcome))
            && (LatestStatus(after, number) != Some(RUNNING) <==>
                outcome.Raised? || outcome.manifestStatus != Some(RUNNING))
            && LatestStatus(after, number) ==
               (match outcome
                case Raised(_) => Some("failed")
                case Returned(_, Some(status), _) => Some(status)
                case Returned(_, None, exitCode) => if exitCode == 0 then Some("completed") else Some("failed"))
            && (LatestStatus(after, number) == Some("completed") <==>
                outcome.Returned? && (outcome.manifestStatus == Some("completed") ||
                                      (outcome.manifestStatus.None? && outcome.exitCode == 0)))
  {
    PostsOnOrderlyLog(log, outcome);
    var after := log + Posts(log, outcome);
    assert after[|after| - 1] == Attempt(PhaseOf(log).value.started + 1, FinalStatus(outcome), Finish);
  }

  // ---------------------------------------------------------------------------
  // What the scan finds in any log, orderly or not.

  ghost predicate DistinctNumbers(statuses: Statuses) {
    forall i, j :: 0 <= i < j < |statuses| ==> statuses[i].0 != statuses[j].0
  }

  lemma {:induction false} AssignKeepsDistinct(statuses: Statuses, number: nat, status: string)
    requires DistinctNumbers(statuses)
    ensures DistinctNumbers(Assign(statuses, number, status))
    ensures forall k, s :: (k, s) in Assign(statuses, number, status) <==>
              if k == number then s == status else (k, s) in statuses
  {
    if statuses != [] && statuses[0].0 != number {
      AssignKeepsDistinct(statuses[1..], number, status);
      assert statuses == [statuses[0]] + statuses[1..];
    } else if statuses != [] {
      assert statuses == [statuses[0]] + statuses[1..];
    }
  }

  /** The scan holds every recorded attempt once, with the last status recorded for it. */
  lemma {:induction false} ScanFinds(log: seq<Comment>)
    ensures DistinctNumbers(Scan(log))
    ensures forall k: nat, s :: (k, s) in Scan(log) <==> LatestStatus(log, k) == Some(s)
  {
    hide Assign, DistinctNumbers;
    if log == [] {
      NothingScanned();
    } else {
      var front, last := log[..|log| - 1], log[|log| - 1];
      ScanFinds(front);
      if last.Attempt? {
        AssignKeepsDistinct(Scan(front), last.number, last.status);
      }
    }
  }

  lemma {:induction false} NothingScanned()
    ensures DistinctNumbers([])
  {
  }

  lemma {:induction false} LargestNumber(statuses: Statuses)
    ensures forall k, s :: (k, s) in statuses ==> k <= MaxNumber(statuses)
    ensures statuses != [] ==> exists s :: (MaxNumber(statuses), s) in statuses
    ensures statuses == [] ==> MaxNumber(statuses) == 0
  {
    if statuses != [] {
      LargestNumber(statuses[1..]);
      assert statuses == [statuses[0]] + statuses[1..];
      assert (statuses[0].0, statuses[0].1) in statuses;
      if MaxNumber(statuses) != statuses[0].0 {
        var s :| (MaxNumber(statuses[1..]), s) in statuses[1..];
        assert (MaxNumber(statuses), s) in statuses;
      }
    }
  }

  lemma {:induction false} InterruptsRunning(statuses: Statuses)
    ensures forall c :: c in Interrupts(statuses) <==>
              c.Attempt? && c.role == Interrupt && c.status == "interrupted" && (c.number, "running") in statuses
  {
    if statuses != [] {
      InterruptsRunning(statuses[1..]);
      assert statuses == [statuses[0]] + statuses[1..];
    }
  }

  /**
   What an invocation posts on any log: it interrupts exactly the attempts whose last recorded
   status is `running`, and then starts and finishes one attempt, numbered one above all
   recorded ones.
   */
  lemma {:induction false} PostsOnAnyLog(log: seq<Comment>, outcome: Outcome) returns (interrupts: seq<Comment>, number: nat)
    ensures Posts(log, outcome) == interrupts + [Attempt(number, "running", Start)] + Checkpoints(outcome.checkpoints) +
                                   [Attempt(number, FinalStatus(outcome), Finish)]
    ensures forall c :: c in interrupts <==>
              c.Attempt? && c.role == Interrupt && c.status == "interrupted" && LatestStatus(log, c.number) == Some("running")
    ensures forall k: nat :: LatestStatus(log, k).Some? ==> k < number
    ensures number >= 1 && (number == 1 || LatestStatus(log, number - 1).Some?)
  {
    interrupts, number := Interrupts(Scan(log)), MaxNumber(Scan(log)) + 1;
    ScanFinds(log);
    LargestNumber(Scan(log));
    InterruptsRunning(Scan(log));
    hide Scan, Interrupts, MaxNumber, LatestStatus, Checkpoints, FinalStatus;
    forall k: nat | LatestStatus(log, k).Some? ensures k < number {
      assert (k, LatestStatus(log, k).value) in Scan(log);
    }
    if Scan(log) != [] {
      var s :| (number - 1, s) in Scan(log);
      assert LatestStatus(log, number - 1) == Some(s);
    }
  }

  // ---------------------------------------------------------------------------
  // Invocations that overlap.

  /** How often a comment of the given role is about attempt `number`. */
  ghost function RoleCount(log: seq<Comment>, role: Role, number: nat): nat {
    if log == [] then 0
    else
      var last := log[|log| - 1];
      RoleCount(log[..|log| - 1], role, number) + if last.Attempt? && last.role == role && last.number == number then 1 else 0
  }

  lemma {:induction false} RoleCountOfLast(log: seq<Comment>, c: Comment, role: Role, number: nat)
    ensures RoleCount(log + [c], role, number) ==
            RoleCount(log, role, number) + if c.Attempt? && c.role == role && c.number == number then 1 else 0
  {
    assert (log + [c])[..|log|] == log;
  }

  lemma {:induction false} NoRoles(role: Role, number: nat)
    ensures RoleCount([], role, number) == 0
  {
  }

  lemma {:induction false} RoleCountOfConcat(a: seq<Comment>, b: seq<Comment>, role: Role, number: nat)
    ensures RoleCount(a + b, role, number) == RoleCount(a, role, number) + RoleCount(b, role, number)
  {
    hide RoleCount;
    if b == [] {
      assert a + b == a;
      NoRoles(role, number);
    } else {
      var front, last := b[..|b| - 1], b[|b| - 1];
      RoleCountOfConcat(a, front, role, number);
      RoleCountOfLast(a + front, last, role, number);
      RoleCountOfLast(front, last, role, number);
      Associates(a, front, [last]);
      assert b == front + [last];
    }
  }

  /** In an orderly log an attempt is started once, and interrupted at most once and not while it is running. */
  lemma {:induction false} OrderlyRoles(log: seq<Comment>, number: nat)
    requires Orderly(log)
    ensures RoleCount(log, Start, number) == if 1 <= number <= PhaseOf(log).value.started then 1 else 0
    ensures RoleCount(log, Interrupt, number) <= 1
    ensures number > PhaseOf(log).value.started || (number == PhaseOf(log).value.started && PhaseOf(log).value.running) ==>
              RoleCount(log, Interrupt, number) == 0
  {
    if log != [] {
      OrderlyRoles(log[..|log| - 1], number);
    }
  }

  /** `merged` holds the comments of two posters, those of each in their order. */
  ghost predicate IsMerge(merged: seq<Comment>, p: seq<Comment>, q: seq<Comment>) {
    if merged == [] then p == [] && q == []
    else
      var front, last := merged[..|merged| - 1], merged[|merged| - 1];
      (p != [] && p[|p| - 1] == last && IsMerge(front, p[..|p| - 1], q)) ||
      (q != [] && q[|q| - 1] == last && IsMerge(front, p, q[..|q| - 1]))
  }

  lemma {:induction false} RoleCountOfMerge(merged: seq<Comment>, p: seq<Comment>, q: seq<Comment>, role: Role, number: nat)
    requires IsMerge(merged, p, q)
    ensures RoleCount(merged, role, number) == RoleCount(p, role, number) + RoleCount(q, role, number)
  {
    if merged != [] {
      var front, last := merged[..|merged| - 1], merged[|merged| - 1];
      if p != [] && p[|p| - 1] == last && IsMerge(front, p[..|p| - 1], q) {
        RoleCountOfMerge(front, p[..|p| - 1], q, role, number);
      } else {
        RoleCountOfMerge(front, p, q[..|q| - 1], role, number);
      }
    }
  }

  lemma {:induction false} MergeWithNothing(merged: seq<Comment>, p: seq<Comment>, q: seq<Comment>)
    requires IsMerge(merged, p, q)
    ensures p == [] ==> merged == q
    ensures q == [] ==> merged == p
  {
    if merged != [] {
      var front, last := merged[..|merged| - 1], merged[|merged| - 1];
      assert merged == front + [last];
      if p != [] && p[|p| - 1] == last && IsMerge(front, p[..|p| - 1], q) {
        MergeWithNothing(front, p[..|p| - 1], q);
        assert p == p[..|p| - 1] + [last];
      } else {
        MergeWithNothing(front, p, q[..|q| - 1]);
        assert q == q[..|q| - 1] + [last];
      }
    }
  }

  /** The first comment of any invocation on an orderly log. */
  ghost function FirstPost(p: Phase): Comment {
    if p.running then Attempt(p.started, INTERRUPTED, Interrupt) else Attempt(p.started + 1, RUNNING, Start)
  }

  lemma {:induction false} PostsBegin(log: seq<Comment>, outcome: Outcome)
    requires Orderly(log)
    ensures |Posts(log, outcome)| >= 2 && Posts(log, outcome)[0] == FirstPost(PhaseOf(log).value)
  {
    PostsOnOrderlyLog(log, outcome);
  }

  lemma {:induction false} PrefixPosted(log: seq<Comment>, posts: seq<Comment>, lifetime: nat)
    requires Orderly(log + posts)
    ensures Orderly(log + Posted(posts, lifetime))
  {
    hide Orderly;
    if lifetime < |posts| {
      assert posts == posts[..lifetime] + posts[lifetime..];
      Associates(log, posts[..lifetime], posts[lifetime..]);
      PrefixOrderly(log + posts[..lifetime], posts[lifetime..]);
    }
  }

  lemma {:induction false} PostedKeepsOrder(log: seq<Comment>, outcome: Outcome, lifetime: nat)
    requires Orderly(log)
    ensures Orderly(log + Posted(Posts(log, outcome), lifetime))
  {
    InvocationKeepsOrder(log, outcome);
    assert Orderly(log + Posts(log, outcome));
    hide *;
    PrefixPosted(log, Posts(log, outcome), lifetime);
  }

  lemma {:induction false} FirstCounts(cs: seq<Comment>, role: Role, number: nat)
    requires cs != [] && cs[0].Attempt? && cs[0].role == role && cs[0].number == number
    ensures RoleCount(cs, role, number) >= 1
  {
    RoleCountOfConcat([cs[0]], cs[1..], role, number);
    assert [cs[0]] + cs[1..] == cs && [cs[0]][..0] == [];
  }

  /** Two posters whose first comments are the same, as on one snapshot of the log, break the order. */
  lemma {:induction false} SameFirstPost(log: seq<Comment>, p: seq<Comment>, q: seq<Comment>, merged: seq<Comment>)
    requires Orderly(log) && IsMerge(merged, p, q) && p != [] && q != []
    requires p[0] == q[0] == FirstPost(PhaseOf(log).value)
    ensures !Orderly(log + merged)
  {
    var role, number := p[0].role, p[0].number;
    FirstCounts(p, role, number);
    FirstCounts(q, role, number);
    RoleCountOfMerge(merged, p, q, role, number);
    RoleCountOfConcat(log, merged, role, number);
    if Orderly(log + merged) {
      OrderlyRoles(log + merged, number);
    }
  }

  /**
   Two invocations that read the same log leave it in order iff one of them posts nothing:
   already the first comments of both are one too many, however the rest interleaves.
   */
  lemma {:induction false} StaleSnapshotsCollide(log: seq<Comment>, a: Outcome, b: Outcome, m: nat, n: nat, merged: seq<Comment>)
    requires Orderly(log) && IsMerge(merged, Posted(Posts(log, a), m), Posted(Posts(log, b), n))
    ensures Orderly(log + merged) <==> m == 0 || n == 0
  {
    hide PhaseOf, Posts, IsMerge, FirstPost;
    PostsBegin(log, a);
    PostsBegin(log, b);
    MergeWithNothing(merged, Posted(Posts(log, a), m), Posted(Posts(log, b), n));
    if m == 0 {
      PostedKeepsOrder(log, b, n);
    } else if n == 0 {
      PostedKeepsOrder(log, a, m);
    } else {
      SameFirstPost(log, Posted(Posts(log, a), m), Posted(Posts(log, b), n), merged);
    }
  }

  /** What invocation `a` has still to post after its first `m` comments, if it dies after `lifetime` more. */
  ghost function StillPosted(log: seq<Comment>, a: Outcome, m: nat, lifetime: nat): seq<Comment>
    requires m <= |Posts(log, a)|
  {
    Posted(Posts(log, a)[m..], lifetime)
  }

  /** The comments an invocation posts before the one that starts its attempt. */
  ghost function BeforeStart(log: seq<Comment>): nat
    requires Orderly(log)
  {
    if PhaseOf(log).value.running then 1 else 0
  }

  /** An invocation that has posted its interrupt goes on as if it had read the log only then. */
  lemma {:induction false} AfterInterrupt(log: seq<Comment>, a: Outcome)
    requires Orderly(log) && PhaseOf(log).value.running && |Posts(log, a)| >= 1
    ensures var mid := log + Posts(log, a)[..1]; Orderly(mid) && Posts(log, a)[1..] == Posts(mid, a)
  {
    hide Posts, PhaseOf, Checkpoints, FinalStatus;
    var p := PhaseOf(log).value;
    var interrupt, start, finish := Attempt(p.started, INTERRUPTED, Interrupt), Attempt(p.started + 1, RUNNING, Start), Attempt(p.started + 1, FinalStatus(a), Finish);
    PostsOnOrderlyLog(log, a);
    PhaseOfLast(log, interrupt);
    assert PhaseOf(log + [interrupt]) == Some(Phase(p.started, false, true));
    PostsOnOrderlyLog(log + [interrupt], a);
    HeadAndRest(interrupt, [start], Checkpoints(a.checkpoints), [finish]);
  }

  lemma {:induction false} HeadAndRest<T>(x: T, a: seq<T>, b: seq<T>, c: seq<T>)
    ensures ([x] + a + b + c)[..1] == [x] && ([x] + a + b + c)[1..] == a + b + c && [] + a + b + c == a + b + c
  {
  }

  /**
   The same holds when the second invocation reads the log before the first has started its
   attempt, be it that the first has just interrupted the attempt before.
   */
  lemma {:induction false} OverlapBeforeStart(log: seq<Comment>, a: Outcome, m: nat, t: nat, b: Outcome, n: nat, merged: seq<Comment>)
    requires Orderly(log) && m <= |Posts(log, a)| && m <= BeforeStart(log)
    requires IsMerge(merged, StillPosted(log, a, m, t), Posted(Posts(log + Posts(log, a)[..m], b), n))
    ensures Orderly(log + Posts(log, a)[..m] + merged) <==> t == 0 || n == 0
  {
    var posts := Posts(log, a);
    var mid := log + posts[..m];
    assert m <= 1;
    if m == 0 {
      assert mid == log && posts[m..] == posts;
    } else {
      AfterInterrupt(log, a);
    }
    assert StillPosted(log, a, m, t) == Posted(Posts(mid, a), t);
    hide Posts, PhaseOf, IsMerge, Posted, StillPosted;
    StaleSnapshotsCollide(mid, a, b, t, n, merged);
  }

  ghost predicate AllOthers(cs: seq<Comment>) {
    forall i :: 0 <= i < |cs| ==> cs[i].Other?
  }

  lemma {:induction false} OthersKeepPhase(log: seq<Comment>, merged: seq<Comment>, p: seq<Comment>, q: seq<Comment>)
    requires IsMerge(merged, p, q) && AllOthers(p)
    ensures PhaseOf(log + merged) == PhaseOf(log + q)
  {
    hide PhaseOf;
    if merged != [] {
      var front, last := merged[..|merged| - 1], merged[|merged| - 1];
      assert log + merged == log + front + [last];
      PhaseOfLast(log + front, last);
      if p != [] && p[|p| - 1] == last && IsMerge(front, p[..|p| - 1], q) {
        OthersKeepPhase(log, front, p[..|p| - 1], q);
        assert PhaseOf(log + merged) == PhaseOf(log + front) by {
          OtherKeepsPhase(log + front);
        }
      } else {
        OthersKeepPhase(log, front, p, q[..|q| - 1]);
        assert log + q == log + q[..|q| - 1] + [last];
        PhaseOfLast(log + q[..|q| - 1], last);
      }
    }
  }

  lemma {:induction false} OtherKeepsPhase(log: seq<Comment>)
    ensures PhaseOf(log + [Other]) == PhaseOf(log)
  {
    PhaseOfLast(log, Other);
  }

  /** Once an attempt was interrupted, it is closed for good: no finish of it is in order any more. */
  lemma {:induction false} InterruptCloses(log: seq<Comment>, i: nat, number: nat)
    requires Orderly(log) && i < |log| && log[i] == Attempt(number, INTERRUPTED, Interrupt)
    ensures var p := PhaseOf(log).value; p.started > number || (p.started == number && p.closed)
  {
    if i < |log| - 1 {
      assert log[..|log| - 1][i] == log[i];
      InterruptCloses(log[..|log| - 1], i, number);
    }
  }

  /** A finish and an interrupt of the same attempt are in order only if the finish comes before all the interrupter posts. */
  lemma {:induction false} FinishComesFirst(mid: seq<Comment>, merged: seq<Comment>, others: seq<Comment>, finish: Comment, q: seq<Comment>)
    requires AllOthers(others) && finish.Attempt? && finish.role == Finish
    requires q != [] && q[0] == Attempt(finish.number, INTERRUPTED, Interrupt)
    requires IsMerge(merged, others + [finish], q) && Orderly(mid + merged)
    ensures merged == others + [finish] + q
  {
    var p := others + [finish];
    assert p[..|p| - 1] == others && p[|p| - 1] == finish;
    var front, last := merged[..|merged| - 1], merged[|merged| - 1];
    assert (p[|p| - 1] == last && IsMerge(front, p[..|p| - 1], q)) || (q[|q| - 1] == last && IsMerge(front, p, q[..|q| - 1]));
    hide IsMerge, AllOthers, Orderly;
    LastPosted(mid, merged);
    if finish == last && IsMerge(front, others, q) {
      FinishTooLate(mid, front, others, finish, q);
    } else {
      PrefixOrderly(mid + front, [last]);
      var q' := q[..|q| - 1];
      if q' == [] {
        MergeWithNothing(front, p, q');
      } else {
        FinishComesFirst(mid, front, others, finish, q');
      }
      LastMerged(merged, p, q);
    }
  }

  lemma {:induction false} LastPosted(log: seq<Comment>, more: seq<Comment>)
    requires more != []
    ensures log + more == log + more[..|more| - 1] + [more[|more| - 1]]
  {
  }

  lemma {:induction false} LastMerged(merged: seq<Comment>, p: seq<Comment>, q: seq<Comment>)
    requires merged != [] && q != [] && merged[|merged| - 1] == q[|q| - 1]
    requires merged[..|merged| - 1] == p + q[..|q| - 1]
    ensures merged == p + q
  {
    assert merged == merged[..|merged| - 1] + [merged[|merged| - 1]];
    assert q == q[..|q| - 1] + [q[|q| - 1]];
  }

  lemma {:induction false} FinishTooLate(mid: seq<Comment>, front: seq<Comment>, others: seq<Comment>, finish: Comment, q: seq<Comment>)
    requires AllOthers(others) && finish.Attempt? && finish.role == Finish
    requires q != [] && q[0] == Attempt(finish.number, INTERRUPTED, Interrupt)
    requires IsMerge(front, others, q)
    ensures !Orderly(mid + front + [finish])
  {
    OthersKeepPhase(mid, front, others, q);
    PhaseOfLast(mid + front, finish);
    if Orderly(mid + q) {
      assert (mid + q)[|mid|] == q[0];
      InterruptCloses(mid + q, |mid|, finish.number);
    }
  }

  /** The log as the second invocation reads it, once the first has started its attempt. */
  /** What comes up to the start of an attempt, the start included. */
  ghost function UpToStart(p: Phase): seq<Comment> {
    (if p.running then [Attempt(p.started, INTERRUPTED, Interrupt)] else []) + [Attempt(p.started + 1, RUNNING, Start)]
  }

  lemma {:induction false} PostsParts(log: seq<Comment>, a: Outcome)
    requires Orderly(log)
    ensures var p := PhaseOf(log).value;
            && Posts(log, a) == UpToStart(p) + Checkpoints(a.checkpoints) + [Attempt(p.started + 1, FinalStatus(a), Finish)]
            && |UpToStart(p)| == BeforeStart(log) + 1
  {
    PostsOnOrderlyLog(log, a);
  }

  lemma {:induction false} StartPhase(log: seq<Comment>)
    requires Orderly(log)
    ensures var p := PhaseOf(log).value; PhaseOf(log + UpToStart(p)) == Some(Phase(p.started + 1, true, false))
  {
    var p := PhaseOf(log).value;
    var start := Attempt(p.started + 1, RUNNING, Start);
    if p.running {
      var interrupt := Attempt(p.started, INTERRUPTED, Interrupt);
      PhaseOfLast(log, interrupt);
      PhaseOfLast(log + [interrupt], start);
      assert log + ([interrupt] + [start]) == log + [interrupt] + [start];
    } else {
      PhaseOfLast(log, start);
      assert UpToStart(p) == [start];
    }
  }

  lemma {:induction false} CutParts(posts: seq<Comment>, front: seq<Comment>, others: seq<Comment>, finish: Comment, m: nat)
    requires posts == front + others + [finish] && |front| <= m < |posts|
    ensures posts[..m] == front + others[..m - |front|] && posts[m..] == others[m - |front|..] + [finish]
  {
  }

  lemma {:induction false} OthersIn(others: seq<Comment>, k: nat)
    requires AllOthers(others) && k <= |others|
    ensures AllOthers(others[..k]) && AllOthers(others[k..])
  {
  }

  /** The log as the second invocation reads it, once the first has started its attempt. */
  lemma {:induction false} AfterStart(log: seq<Comment>, a: Outcome, m: nat) returns (others: seq<Comment>)
    requires Orderly(log) && BeforeStart(log) < m < |Posts(log, a)|
    ensures PhaseOf(log + Posts(log, a)[..m]) == Some(Phase(PhaseOf(log).value.started + 1, true, false))
    ensures AllOthers(others)
    ensures Posts(log, a)[m..] == others + [Attempt(PhaseOf(log).value.started + 1, FinalStatus(a), Finish)]
  {
    hide PhaseOf, Posts, Checkpoints, AllOthers, BeforeStart, UpToStart, FinalStatus;
    var p, checkpoints := PhaseOf(log).value, Checkpoints(a.checkpoints);
    var front, finish := UpToStart(p), Attempt(p.started + 1, FinalStatus(a), Finish);
    PostsParts(log, a);
    OnlyOthers(a.checkpoints);
    CutParts(Posts(log, a), front, checkpoints, finish, m);
    OthersIn(checkpoints, m - |front|);
    others := checkpoints[m - |front|..];
    StartPhase(log);
    OnlyOthersFollow(log + front, checkpoints[..m - |front|]);
    Associates(log, front, checkpoints[..m - |front|]);
  }

  lemma {:induction false} OnlyOthers(n: nat)
    ensures |Checkpoints(n)| == n && AllOthers(Checkpoints(n))
  {
    if n > 0 {
      OnlyOthers(n - 1);
    }
  }

  lemma {:induction false} OnlyOthersFollow(log: seq<Comment>, others: seq<Comment>)
    requires AllOthers(others)
    ensures PhaseOf(log + others) == PhaseOf(log)
  {
    if others == [] {
      assert log + others == log;
    } else {
      OnlyOthersFollow(log, others[..|others| - 1]);
      OtherKeepsPhase(log + others[..|others| - 1]);
      assert log + others == log + others[..|others| - 1] + [Other];
    }
  }

  lemma {:induction false} SamePhaseSamePosts(log: seq<Comment>, other: seq<Comment>, b: Outcome)
    requires Orderly(log) && Orderly(other)
    requires PhaseOf(log).value.(closed := true) == PhaseOf(other).value.(closed := true)
    ensures Posts(log, b) == Posts(other, b)
  {
    PostsOnOrderlyLog(log, b);
    PostsOnOrderlyLog(other, b);
  }

  lemma {:induction false} FinishThenSecond(mid: seq<Comment>, others: seq<Comment>, finish: Comment, b: Outcome, n: nat)
    requires AllOthers(others) && finish.Attempt? && finish.role == Finish && n > 0
    requires PhaseOf(mid) == Some(Phase(finish.number, true, false))
    ensures Orderly(mid + (others + [finish]) + Posted(Posts(mid, b), n)) <==> finish.status == RUNNING
  {
    var after := mid + (others + [finish]);
    Associates(mid, others, [finish]);
    OnlyOthersFollow(mid, others);
    PhaseOfLast(mid + others, finish);
    PostsBegin(mid, b);
    var second := Posted(Posts(mid, b), n);
    assert second[0] == Attempt(finish.number, INTERRUPTED, Interrupt);
    hide Posts, PhaseOf;
    if finish.status == RUNNING {
      SamePhaseSamePosts(mid, after, b);
      PostedKeepsOrder(after, b, n);
    } else {
      PhaseOfLast(after, second[0]);
      FirstOf(after, second);
      if Orderly(after + second) {
        PrefixOrderly(after + [second[0]], second[1..]);
      }
    }
  }

  lemma {:induction false} FirstOf(log: seq<Comment>, more: seq<Comment>)
    requires more != []
    ensures log + more == log + [more[0]] + more[1..]
  {
  }

  /** The second invocation posts nothing, or the first no finish. */
  lemma {:induction false} CutShort(mid: seq<Comment>, others: seq<Comment>, finish: Comment, t: nat, b: Outcome, n: nat, merged: seq<Comment>)
    requires AllOthers(others) && finish.Attempt? && finish.role == Finish
    requires PhaseOf(mid) == Some(Phase(finish.number, true, false))
    requires IsMerge(merged, Posted(others + [finish], t), Posted(Posts(mid, b), n))
    requires n == 0 || t <= |others|
    ensures Orderly(mid + merged)
  {
    var first, second := Posted(others + [finish], t), Posted(Posts(mid, b), n);
    if t <= |others| {
      assert first == others[..t];
      OthersIn(others, t);
      hide Posts, PhaseOf, IsMerge;
      OthersKeepPhase(mid, merged, first, second);
      PostedKeepsOrder(mid, b, n);
    } else {
      OnlyOthersFollow(mid, others);
      PhaseOfLast(mid + others, finish);
      hide Posts, PhaseOf, IsMerge;
      PostsBegin(mid, b);
      MergeWithNothing(merged, first, second);
      Associates(mid, others, [finish]);
    }
  }

  /** The first invocation posts its finish and the second at least one comment. */
  lemma {:induction false} FullOverlap(mid: seq<Comment>, others: seq<Comment>, finish: Comment, b: Outcome, n: nat, merged: seq<Comment>)
    requires AllOthers(others) && finish.Attempt? && finish.role == Finish && n > 0
    requires PhaseOf(mid) == Some(Phase(finish.number, true, false))
    requires IsMerge(merged, others + [finish], Posted(Posts(mid, b), n))
    ensures Orderly(mid + merged) <==> finish.status == RUNNING && merged == others + [finish] + Posted(Posts(mid, b), n)
  {
    var second := Posted(Posts(mid, b), n);
    PostsBegin(mid, b);
    assert second != [] && second[0] == Attempt(finish.number, INTERRUPTED, Interrupt);
    hide Posts, PhaseOf, IsMerge, AllOthers, Posted;
    FinishThenSecond(mid, others, finish, b, n);
    Associates(mid, others + [finish], second);
    if Orderly(mid + merged) {
      FinishComesFirst(mid, merged, others, finish, second);
    }
  }

  /**
   A second invocation that reads the log while the first one's attempt is running takes it for
   dead and interrupts it. The log stays in order iff the first really posts no finish, or the
   second posts nothing, or the finish still comes in before all its comments and leaves the
   attempt running.
   */
  lemma {:induction false} OverlapAfterStart(log: seq<Comment>, a: Outcome, m: nat, t: nat, b: Outcome, n: nat, merged: seq<Comment>)
    requires Orderly(log) && BeforeStart(log) < m < |Posts(log, a)|
    requires IsMerge(merged, StillPosted(log, a, m, t), Posted(Posts(log + Posts(log, a)[..m], b), n))
    ensures var rest, second := Posts(log, a)[m..], Posted(Posts(log + Posts(log, a)[..m], b), n);
            Orderly(log + Posts(log, a)[..m] + merged) <==>
            n == 0 || t < |rest| || (FinalStatus(a) == RUNNING && merged == rest + second)
  {
    var others := AfterStart(log, a, m);
    var mid, rest, finish := log + Posts(log, a)[..m], Posts(log, a)[m..], Attempt(PhaseOf(log).value.started + 1, FinalStatus(a), Finish);
    hide Posts, IsMerge, PhaseOf, AllOthers, FinalStatus, Orderly;
    if n == 0 || t < |rest| {
      CutShort(mid, others, finish, t, b, n, merged);
    } else {
      FullOverlap(mid, others, finish, b, n, merged);
    }
  }

  // ---------------------------------------------------------------------------
  // The launcher.

  lemma {:induction false} PostedOfConcat(prior: seq<Comment>, cs: seq<Comment>, ds: seq<Comment>, lifetime: nat)
    ensures prior + Posted(cs + ds, lifetime) ==
            if lifetime >= |cs| then prior + cs + Posted(ds, lifetime - |cs|) else prior + Posted(cs, lifetime)
  {
    if |cs| <= lifetime < |cs| + |ds| {
      assert (cs + ds)[..lifetime] == cs + ds[..lifetime - |cs|];
    }
  }

  class Issue {
    var comments: seq<Comment>
    /** Comments the process under way still gets to post before it dies. */
    var survives: nat

    constructor ()
      ensures comments == [] && survives == 0
    {
      comments := [];
      survives := 0;
    }

    /** Posts a comment unless the process dies first. */
    method AddComment(c: Comment) returns (alive: bool)
      modifies this
      ensures alive <==> old(survives) > 0
      ensures alive ==> comments == old(comments) + [c] && survives == old(survives) - 1
      ensures !alive ==> comments == old(comments) && survives == 0
    {
      if survives == 0 {
        return false;
      }
      comments := comments + [c];
      survives := survives - 1;
      return true;
    }

    method AddComments(cs: seq<Comment>) returns (alive: bool)
      modifies this
      ensures alive <==> old(survives) >= |cs|
      ensures comments == old(comments) + Posted(cs, old(survives))
      ensures survives == if alive then old(survives) - |cs| else 0
    {
      for i := 0 to |cs|
        invariant i <= old(survives) && survives == old(survives) - i
        invariant comments == old(comments) + cs[..i]
      {
        assert cs[..i + 1] == cs[..i] + [cs[i]];
        var posted := AddComment(cs[i]);
        if !posted {
          return false;
        }
      }
      assert cs[..|cs|] == cs;
      return true;
    }

    /** One invocation. It reads the log once, at the beginning, and may die before any of its comments. */
    method Launch(outcome: Outcome) returns (completed: bool)
      modifies this
      ensures var posts := Posts(old(comments), outcome);
              && (completed <==> old(survives) >= |posts|)
              && comments == old(comments) + Posted(posts, old(survives))
      ensures Orderly(old(comments)) ==> Orderly(comments)
    {
      var prior := comments;
      ghost var lifetime := survives;
      var statuses: Statuses := [];
      for i := 0 to |prior|
        invariant statuses == Scan(prior[..i])
      {
        assert prior[..i + 1][..i] == prior[..i];
        if prior[i].Attempt? {
          statuses := Assign(statuses, prior[i].number, prior[i].status);
        }
      }
      assert prior[..|prior|] == prior;
      var interrupts := Interrupts(statuses);
      var number := MaxNumber(statuses) + 1;
      var start, finish := [Attempt(number, RUNNING, Start)], [Attempt(number, FinalStatus(outcome), Finish)];
      var checkpoints := Checkpoints(outcome.checkpoints);
      assert Posts(prior, outcome) == interrupts + start + checkpoints + finish;
      hide *;
      var alive := AddComments(interrupts);
      if alive {
        alive := AddComments(start);
      }
      PostedOfConcat(prior, interrupts, start, lifetime);
      if alive {
        alive := AddComments(checkpoints);
      }
      PostedOfConcat(prior, interrupts + start, checkpoints, lifetime);
      if alive {
        alive := AddComments(finish);
      }
      PostedOfConcat(prior, interrupts + start + checkpoints, finish, lifetime);
      if Orderly(prior) {
        PostedKeepsOrder(prior, outcome, lifetime);
      }
      return alive;
    }
  }
}
