/**
 The validation baseline: discovered checks are run one after the other under one shared time
 budget, each outcome is stored in its check, and the outcomes are folded into one verdict.
 Time and commands are supplied from outside.
 */
module ValidationBudget {
  import opened Wrappers

  const BUDGET_SECONDS: real := 1800.0

  lemma {:induction false} BudgetIsHalfAnHour()
    ensures BUDGET_SECONDS == 30.0 * 60.0
  {
  }

  datatype Status = Passed | Failed | Blocked | TimedOut

  /** How a command ended; `toolMissing` when its output names a missing tool or dependency. */
  datatype Ending = Exited(returncode: int, toolMissing: bool) | TimeoutExpired | FileMissing | OsFailure

  /** A command's ending and the seconds until control returned, cleanup included. */
  datatype Execution = Execution(ending: Ending, took: real)

  /**
   The surroundings: seconds that pass before a check is looked at, and what running the
   check's command does when granted a number of seconds.
   */
  datatype World = World(delay: nat -> real, execute: (nat, real) -> Execution)

  class Check {
    /** `None`: no applicability object; `Some(None)`: no boolean `local` in it. */
    const applicability: Option<Option<bool>>
    const cwdInside: bool
    const cwdExists: bool
    const hasArgvCommand: bool
    var baseline: Option<Status>
    var confirmation: Option<Status>

    constructor (applicability: Option<Option<bool>>, cwdInside: bool, cwdExists: bool, hasArgvCommand: bool)
      ensures this.applicability == applicability && this.cwdInside == cwdInside
      ensures this.cwdExists == cwdExists && this.hasArgvCommand == hasArgvCommand
      ensures baseline == confirmation == None
    {
      this.applicability, this.cwdInside := applicability, cwdInside;
      this.cwdExists, this.hasArgvCommand := cwdExists, hasArgvCommand;
      baseline, confirmation := None, None;
    }
  }

  /** Entries of the inventory that are no objects are null. */
  predicate Applicable(c: Check?) {
    c != null && c.applicability.Some? && c.applicability.value != Some(false)
  }

  function ApplicableChecks(inventory: seq<Check?>): (r: seq<Check>)
    ensures forall i :: 0 <= i < |r| ==> r[i] in inventory && Applicable(r[i])
    ensures forall i :: 0 <= i < |inventory| && Applicable(inventory[i]) ==> inventory[i] in r
  {
    if inventory == [] then []
    else
      var last := inventory[|inventory| - 1];
      ApplicableChecks(inventory[..|inventory| - 1]) + if Applicable(last) then [last] else []
  }

  /** An entry is applicable unless it is no object, has no applicability, or that says `local` is false. */
  lemma {:induction false} ApplicableMeans(c: Check?)
    ensures Applicable(c) <==>
            c != null &&
            match c.applicability
            case None => false
            case Some(None) => true
            case Some(Some(isLocal)) => isLocal
  {
  }

  /** The applicable checks keep their order, and each entry counts for itself. */
  lemma {:induction false} ApplicableInOrder(a: seq<Check?>, b: seq<Check?>)
    ensures ApplicableChecks(a + b) == ApplicableChecks(a) + ApplicableChecks(b)
    ensures forall c :: c in a ==> ApplicableChecks([c]) == if Applicable(c) then [c] else []
  {
    hide Applicable;
    forall c | c in a ensures ApplicableChecks([c]) == if Applicable(c) then [c] else [] {
      assert [c][..0] == [];
    }
    if b == [] {
      assert a + b == a;
    } else {
      var front, last := b[..|b| - 1], b[|b| - 1];
      assert (a + b)[..|a + b| - 1] == a + front && (a + b)[|a + b| - 1] == last;
      ApplicableInOrder(a, front);
      Associates(ApplicableChecks(a), ApplicableChecks(front), if Applicable(last) then [last] else []);
    }
  }

  function Min(x: real, y: real): real {
    if x <= y then x else y
  }

  function EndingStatus(e: Ending): Status {
    match e
    case Exited(returncode, toolMissing) => if returncode == 0 then Passed else if toolMissing then Blocked else Failed
    case TimeoutExpired => TimedOut
    case FileMissing => Blocked
    case OsFailure => Blocked
  }

  // ---------------------------------------------------------------------------
  // The run as a value.

  /** A command that was started: when, with how many seconds, and when control returned. */
  datatype Started = Started(index: nat, at: real, granted: real, ended: real)

  datatype Progress = Progress(now: real, statuses: seq<Status>, started: seq<Started>)

  /** Looks at check number `i`. */
  function Look(p: Progress, i: nat, c: Check, world: World, deadline: real, timeout: real): Progress {
    var now := p.now + world.delay(i);
    if !c.cwdInside then Progress(now, p.statuses + [Blocked], p.started)
    else if deadline - now <= 0.0 then Progress(now, p.statuses + [TimedOut], p.started)
    else if !c.hasArgvCommand || !c.cwdExists then Progress(now, p.statuses + [Blocked], p.started)
    else
      var granted := Min(timeout, deadline - now);
      var e := world.execute(i, granted);
      Progress(now + e.took, p.statuses + [EndingStatus(e.ending)], p.started + [Started(i, now, granted, now + e.took)])
  }

  function RunAll(checks: seq<Check>, world: World, start: real, timeout: real): (p: Progress)
    ensures |p.statuses| == |checks|
  {
    if checks == [] then Progress(start, [], [])
    else
      var n := |checks| - 1;
      Look(RunAll(checks[..n], world, start, timeout), n, checks[n], world, start + BUDGET_SECONDS, timeout)
  }

  /** Time never runs backwards, and a command takes at most what it was granted plus the cleanup. */
  ghost predicate Bounded(world: World, cleanup: real) {
    && cleanup >= 0.0
    && (forall i :: world.delay(i) >= 0.0)
    && (forall i, granted :: 0.0 <= world.execute(i, granted).took <= (if granted > 0.0 then granted else 0.0) + cleanup)
  }

  ghost function SecondsInCommands(started: seq<Started>): real {
    if started == [] then 0.0
    else SecondsInCommands(started[..|started| - 1]) + started[|started| - 1].ended - started[|started| - 1].at
  }

  /** One command: started before the deadline, granted at most what was left, back in time. */
  ghost predicate Punctual(s: Started, start: real, timeout: real, cleanup: real) {
    var deadline := start + BUDGET_SECONDS;
    && start <= s.at < deadline && s.at <= s.ended <= deadline + cleanup
    && s.granted <= timeout && s.granted <= deadline - s.at && (s.granted == timeout || s.granted == deadline - s.at)
  }

  ghost predicate OneAtATime(started: seq<Started>) {
    forall k, l :: 0 <= k < l < |started| ==> started[k].ended <= started[l].at && started[k].index < started[l].index
  }

  /** What holds of the commands started so far, before check number `next` is looked at. */
  ghost predicate WithinBudget(p: Progress, next: nat, start: real, timeout: real, cleanup: real) {
    && start <= p.now
    && (forall k :: 0 <= k < |p.started| ==>
          Punctual(p.started[k], start, timeout, cleanup) && p.started[k].ended <= p.now && p.started[k].index < next)
    && OneAtATime(p.started)
  }

  lemma {:induction false} LookKeepsBudget(p: Progress, i: nat, c: Check, world: World, start: real, timeout: real, cleanup: real)
    requires Bounded(world, cleanup) && WithinBudget(p, i, start, timeout, cleanup)
    ensures WithinBudget(Look(p, i, c, world, start + BUDGET_SECONDS, timeout), i + 1, start, timeout, cleanup)
  {
    assert world.delay(i) >= 0.0;
    var now := p.now + world.delay(i);
    var granted := Min(timeout, start + BUDGET_SECONDS - now);
    var took := world.execute(i, granted).took;
    assert 0.0 <= took <= (if granted > 0.0 then granted else 0.0) + cleanup;
    if now < start + BUDGET_SECONDS {
      assert Punctual(Started(i, now, granted, now + took), start, timeout, cleanup);
    }
  }

  lemma {:induction false} CommandsTakeTurns(started: seq<Started>, start: real, timeout: real, cleanup: real)
    requires OneAtATime(started) && started != []
    requires forall k :: 0 <= k < |started| ==> Punctual(started[k], start, timeout, cleanup)
    ensures SecondsInCommands(started) <= started[|started| - 1].ended - start
  {
    var front, last := started[..|started| - 1], started[|started| - 1];
    if front == [] {
      assert Punctual(last, start, timeout, cleanup);
    } else {
      CommandsTakeTurns(front, start, timeout, cleanup);
    }
  }

  /** The seconds that pass before the first `n` checks are looked at. */
  ghost function Waited(world: World, n: nat): real {
    if n == 0 then 0.0 else Waited(world, n - 1) + world.delay(n - 1)
  }

  /** The run itself ends by the deadline plus one cleanup and whatever time passed between commands. */
  lemma {:induction false} RunEnds(checks: seq<Check>, world: World, start: real, timeout: real, cleanup: real)
    requires Bounded(world, cleanup)
    ensures RunAll(checks, world, start, timeout).now <= start + BUDGET_SECONDS + cleanup + Waited(world, |checks|)
  {
    if checks != [] {
      var n := |checks| - 1;
      RunEnds(checks[..n], world, start, timeout, cleanup);
      var now := RunAll(checks[..n], world, start, timeout).now + world.delay(n);
      var granted := Min(timeout, start + BUDGET_SECONDS - now);
      assert world.delay(n) >= 0.0;
      assert world.execute(n, granted).took <= (if granted > 0.0 then granted else 0.0) + cleanup;
      WaitedGrows(world, n, cleanup);
    }
  }

  lemma {:induction false} WaitedGrows(world: World, n: nat, cleanup: real)
    requires Bounded(world, cleanup)
    ensures Waited(world, n) >= 0.0 && Waited(world, n + 1) >= 0.0
  {
    if n > 0 {
      WaitedGrows(world, n - 1, cleanup);
    }
    assert world.delay(n) >= 0.0;
  }

  lemma {:induction false} NoWait(world: World, n: nat)
    requires forall i :: 0 <= i < n ==> world.delay(i) == 0.0
    ensures Waited(world, n) == 0.0
  {
    if n > 0 {
      NoWait(world, n - 1);
    }
  }

  /**
   The budget holds for every list of checks: commands run one at a time, none starts at or
   after the deadline, each is granted at most what is left, every one has returned by the
   deadline plus the cleanup, and so all commands together take at most the budget plus one cleanup.
   The run as a whole ends by the deadline plus the cleanup when no time passes between commands,
   and otherwise at most that much time later.
   */
  lemma {:induction false} BudgetHolds(checks: seq<Check>, world: World, start: real, timeout: real, cleanup: real)
    requires Bounded(world, cleanup)
    ensures var p := RunAll(checks, world, start, timeout);
            && WithinBudget(p, |checks|, start, timeout, cleanup) && SecondsInCommands(p.started) <= BUDGET_SECONDS + cleanup
            && p.now <= start + BUDGET_SECONDS + cleanup + Waited(world, |checks|)
            && ((forall i :: 0 <= i < |checks| ==> world.delay(i) == 0.0) ==> p.now <= start + BUDGET_SECONDS + cleanup)
  {
    RunEnds(checks, world, start, timeout, cleanup);
    if forall i :: 0 <= i < |checks| ==> world.delay(i) == 0.0 {
      NoWait(world, |checks|);
    }
    CommandsWithinBudget(checks, world, start, timeout, cleanup);
  }

  lemma {:induction false} CommandsWithinBudget(checks: seq<Check>, world: World, start: real, timeout: real, cleanup: real)
    requires Bounded(world, cleanup)
    ensures var p := RunAll(checks, world, start, timeout);
            WithinBudget(p, |checks|, start, timeout, cleanup) && SecondsInCommands(p.started) <= BUDGET_SECONDS + cleanup
  {
    if checks != [] {
      var n := |checks| - 1;
      CommandsWithinBudget(checks[..n], world, start, timeout, cleanup);
      LookKeepsBudget(RunAll(checks[..n], world, start, timeout), n, checks[n], world, start, timeout, cleanup);
    }
    var started := RunAll(checks, world, start, timeout).started;
    if started != [] {
      CommandsTakeTurns(started, start, timeout, cleanup);
      assert Punctual(started[|started| - 1], start, timeout, cleanup);
    }
  }

  lemma {:induction false} PrefixOfRun(checks: seq<Check>, k: nat, world: World, start: real, timeout: real)
    requires k <= |checks|
    ensures RunAll(checks[..k], world, start, timeout).statuses == RunAll(checks, world, start, timeout).statuses[..k]
  {
    if k < |checks| {
      var n := |checks| - 1;
      assert checks[..n][..k] == checks[..k];
      PrefixOfRun(checks[..n], k, world, start, timeout);
    } else {
      assert checks[..k] == checks;
    }
  }

  lemma {:induction false} RunAllNext(checks: seq<Check>, i: nat, world: World, start: real, timeout: real)
    requires i < |checks|
    ensures RunAll(checks[..i + 1], world, start, timeout) ==
            Look(RunAll(checks[..i], world, start, timeout), i, checks[i], world, start + BUDGET_SECONDS, timeout)
  {
    assert checks[..i + 1][..i] == checks[..i];
  }

  lemma {:induction false} LateLook(p: Progress, n: nat, c: Check, world: World, deadline: real, timeout: real)
    requires p.now >= deadline && world.delay(n) >= 0.0
    ensures var q := Look(p, n, c, world, deadline, timeout);
            && q.now >= deadline && q.started == p.started
            && q.statuses == p.statuses + [if c.cwdInside then TimedOut else Blocked]
  {
  }

  lemma {:induction false} StaysLate(checks: seq<Check>, k: nat, world: World, start: real, timeout: real, cleanup: real)
    requires Bounded(world, cleanup) && k <= |checks|
    requires RunAll(checks[..k], world, start, timeout).now >= start + BUDGET_SECONDS
    ensures RunAll(checks, world, start, timeout).now >= start + BUDGET_SECONDS
    ensures RunAll(checks, world, start, timeout).started == RunAll(checks[..k], world, start, timeout).started
  {
    if k < |checks| {
      var n := |checks| - 1;
      assert checks[..n][..k] == checks[..k] && checks[..n + 1] == checks;
      assert world.delay(n) >= 0.0;
      RunAllNext(checks, n, world, start, timeout);
      hide RunAll, Look, Bounded;
      StaysLate(checks[..n], k, world, start, timeout, cleanup);
      LateLook(RunAll(checks[..n], world, start, timeout), n, checks[n], world, start + BUDGET_SECONDS, timeout);
    } else {
      assert checks[..k] == checks;
    }
  }

  lemma {:induction false} LateStatus(checks: seq<Check>, k: nat, world: World, start: real, timeout: real, cleanup: real, i: nat)
    requires Bounded(world, cleanup) && k <= i < |checks|
    requires RunAll(checks[..k], world, start, timeout).now >= start + BUDGET_SECONDS
    ensures RunAll(checks, world, start, timeout).statuses[i] == if checks[i].cwdInside then TimedOut else Blocked
  {
    assert world.delay(i) >= 0.0;
    hide RunAll, Look, Bounded;
    Prefixes(checks, k, i);
    StaysLate(checks[..i], k, world, start, timeout, cleanup);
    RunAllNext(checks, i, world, start, timeout);
    var before := RunAll(checks[..i], world, start, timeout);
    LateLook(before, i, checks[i], world, start + BUDGET_SECONDS, timeout);
    PrefixOfRun(checks, i + 1, world, start, timeout);
    LastOfPrefix(RunAll(checks, world, start, timeout).statuses, before.statuses, if checks[i].cwdInside then TimedOut else Blocked, i);
  }

  lemma {:induction false} LastOfPrefix<T>(s: seq<T>, front: seq<T>, x: T, i: nat)
    requires i < |s| && |front| == i && s[..i + 1] == front + [x]
    ensures s[i] == x
  {
    assert s[i] == s[..i + 1][i];
  }

  /** Once the deadline has passed, no check passes or fails any more. */
  lemma {:induction false} AfterDeadline(checks: seq<Check>, k: nat, world: World, start: real, timeout: real, cleanup: real)
    requires Bounded(world, cleanup) && k <= |checks|
    requires RunAll(checks[..k], world, start, timeout).now >= start + BUDGET_SECONDS
    ensures RunAll(checks, world, start, timeout).now >= start + BUDGET_SECONDS
    ensures RunAll(checks, world, start, timeout).started == RunAll(checks[..k], world, start, timeout).started
    ensures var statuses := RunAll(checks, world, start, timeout).statuses;
            forall i :: k <= i < |checks| ==> statuses[i] == if checks[i].cwdInside then TimedOut else Blocked
  {
    hide RunAll, Bounded;
    StaysLate(checks, k, world, start, timeout, cleanup);
    forall i | k <= i < |checks|
      ensures RunAll(checks, world, start, timeout).statuses[i] == if checks[i].cwdInside then TimedOut else Blocked
    {
      LateStatus(checks, k, world, start, timeout, cleanup, i);
    }
  }

  lemma {:induction false} Prefixes<T>(s: seq<T>, k: nat, i: nat)
    requires k <= i <= |s|
    ensures s[..i][..k] == s[..k]
  {
  }

  /** The command of check `i` was started and ended this way. */
  ghost predicate EndedAs(p: Progress, i: nat, world: World, ending: Ending) {
    exists k :: 0 <= k < |p.started| && p.started[k].index == i && world.execute(i, p.started[k].granted).ending == ending
  }

  /** A missing tool, a missing file or a failing system call. */
  ghost predicate CannotRun(ending: Ending) {
    ending.FileMissing? || ending.OsFailure? || (ending.Exited? && ending.returncode != 0 && ending.toolMissing)
  }

  lemma {:induction false} IndicesBelow(checks: seq<Check>, world: World, start: real, timeout: real)
    ensures forall k :: 0 <= k < |RunAll(checks, world, start, timeout).started| ==>
              RunAll(checks, world, start, timeout).started[k].index < |checks|
  {
    if checks != [] {
      IndicesBelow(checks[..|checks| - 1], world, start, timeout);
    }
  }

  lemma {:induction false} LaterLooksKeepEndings(p: Progress, n: nat, c: Check, world: World, deadline: real, timeout: real, i: nat, ending: Ending)
    requires i < n
    ensures EndedAs(Look(p, n, c, world, deadline, timeout), i, world, ending) <==> EndedAs(p, i, world, ending)
  {
    var q := Look(p, n, c, world, deadline, timeout);
    if EndedAs(p, i, world, ending) {
      var k :| 0 <= k < |p.started| && p.started[k].index == i && world.execute(i, p.started[k].granted).ending == ending;
      assert q.started[k] == p.started[k];
    }
  }

  lemma {:induction false} OwnLook(p: Progress, n: nat, c: Check, world: World, deadline: real, timeout: real)
    requires forall k :: 0 <= k < |p.started| ==> p.started[k].index < n
    ensures var q := Look(p, n, c, world, deadline, timeout);
            var status := q.statuses[|p.statuses|];
            && (status == Passed <==> EndedAs(q, n, world, Exited(0, false)) || EndedAs(q, n, world, Exited(0, true)))
            && (status == Failed <==> exists code :: code != 0 && EndedAs(q, n, world, Exited(code, false)))
            && (status == TimedOut <==>
                EndedAs(q, n, world, TimeoutExpired) || (c.cwdInside && p.now + world.delay(n) >= deadline))
            && (status == Blocked <==>
                !c.cwdInside ||
                (p.now + world.delay(n) < deadline && (!c.hasArgvCommand || !c.cwdExists)) ||
                exists e :: CannotRun(e) && EndedAs(q, n, world, e))
  {
    var q := Look(p, n, c, world, deadline, timeout);
    if |q.started| > |p.started| {
      var last := q.started[|p.started|];
      var ending := world.execute(n, last.granted).ending;
      assert EndedAs(q, n, world, ending);
      assert forall k :: 0 <= k < |q.started| && q.started[k].index == n ==> q.started[k] == last;
      assert forall e :: EndedAs(q, n, world, e) <==> e == ending;
    }
  }

  /**
   A check passes iff its command was started and returned zero, and fails iff it returned
   something else without missing a tool. It times out iff its command did, or the deadline
   had passed when its turn came; and it is blocked iff its directory lies outside, or there
   was time left but no command or directory to run it with, or the command could not run.
   */
  lemma {:induction false} OutcomeOfCheck(checks: seq<Check>, i: nat, world: World, start: real, timeout: real)
    requires i < |checks|
    ensures var p, turn := RunAll(checks, world, start, timeout), RunAll(checks[..i], world, start, timeout).now + world.delay(i);
            && (p.statuses[i] == Passed <==> EndedAs(p, i, world, Exited(0, false)) || EndedAs(p, i, world, Exited(0, true)))
            && (p.statuses[i] == Failed <==> exists code :: code != 0 && EndedAs(p, i, world, Exited(code, false)))
            && (p.statuses[i] == TimedOut <==>
                EndedAs(p, i, world, TimeoutExpired) || (checks[i].cwdInside && turn >= start + BUDGET_SECONDS))
            && (p.statuses[i] == Blocked <==>
                !checks[i].cwdInside ||
                (turn < start + BUDGET_SECONDS && (!checks[i].hasArgvCommand || !checks[i].cwdExists)) ||
                exists e :: CannotRun(e) && EndedAs(p, i, world, e))
  {
    var n := |checks| - 1;
    var before := RunAll(checks[..n], world, start, timeout);
    assert checks[..n + 1] == checks;
    RunAllNext(checks, n, world, start, timeout);
    hide RunAll, Look, EndedAs, CannotRun;
    if i < n {
      Prefixes(checks, i, n);
      OutcomeOfCheck(checks[..n], i, world, start, timeout);
      PrefixOfRun(checks, n, world, start, timeout);
      forall e ensures EndedAs(RunAll(checks, world, start, timeout), i, world, e) <==> EndedAs(before, i, world, e) {
        LaterLooksKeepEndings(before, n, checks[n], world, start + BUDGET_SECONDS, timeout, i, e);
      }
    } else {
      IndicesBelow(checks[..n], world, start, timeout);
      OwnLook(before, n, checks[n], world, start + BUDGET_SECONDS, timeout);
    }
  }

  // ---------------------------------------------------------------------------
  // The verdict.

  datatype Overall = NotAList | NoChecks | Ran(status: Status, checks: nat)

  function Verdict(statuses: seq<Status>): Status {
    if TimedOut in statuses then TimedOut
    else if Failed in statuses then Failed
    else if Blocked in statuses then Blocked
    else Passed
  }

  function Severity(s: Status): nat {
    match s
    case Passed => 0
    case Blocked => 1
    case Failed => 2
    case TimedOut => 3
  }

  /** The verdict is the worst status that occurred; it is `Passed` iff every check passed. */
  lemma {:induction false} VerdictIsWorst(statuses: seq<Status>)
    ensures statuses != [] ==> Verdict(statuses) in statuses
    ensures forall s :: s in statuses ==> Severity(s) <= Severity(Verdict(statuses))
    ensures Verdict(statuses) == Passed <==> forall s :: s in statuses ==> s == Passed
  {
    if statuses != [] {
      var first := statuses[0];
      assert first in statuses;
      assert first == Passed || first == Failed || first == Blocked || first == TimedOut;
    }
  }

  // ---------------------------------------------------------------------------
  // The loop.

  /** Runs one check and writes the outcome into it. */
  method RunCheck(check: Check, i: nat, world: World, now: real, deadline: real, timeout: real, ghost p: Progress)
    returns (status: Status, later: real, ghost q: Progress)
    requires p.now == now
    modifies check`baseline, check`confirmation
    ensures q == Look(p, i, check, world, deadline, timeout)
    ensures q.now == later && q.statuses == p.statuses + [status]
    ensures check.baseline == check.confirmation == Some(status)
  {
    later := now + world.delay(i);
    q := Look(p, i, check, world, deadline, timeout);
    var remaining := deadline - later;
    if !check.cwdInside {
      status := Blocked;
    } else if remaining <= 0.0 {
      status := TimedOut;
    } else if !check.hasArgvCommand || !check.cwdExists {
      status := Blocked;
    } else {
      var e := world.execute(i, Min(timeout, remaining));
      later := later + e.took;
      status := EndingStatus(e.ending);
    }
    check.confirmation := Some(status);
    check.baseline := Some(status);
  }

  ghost predicate LastTurn(checks: seq<Check>, k: nat, n: nat)
    requires k < n <= |checks|
  {
    forall l :: k < l < n ==> checks[l] != checks[k]
  }

  lemma {:induction false} LastTurnBefore(checks: seq<Check>, k: nat, i: nat)
    requires k < i < |checks| && LastTurn(checks, k, i + 1)
    ensures LastTurn(checks, k, i) && checks[k] != checks[i]
  {
  }

  /** The outcome stored in each check is the one of its last turn. */
  ghost predicate Stored(checks: seq<Check>, statuses: seq<Status>, n: nat)
    requires n <= |checks| && n <= |statuses|
    reads checks
  {
    forall k :: 0 <= k < n && LastTurn(checks, k, n) ==>
      checks[k].baseline == Some(statuses[k]) && checks[k].confirmation == Some(statuses[k])
  }

  /** One turn of the loop: the other checks keep what they hold. */
  method RunNext(checks: seq<Check>, ghost statuses: seq<Status>, i: nat, world: World, now: real, deadline: real, timeout: real, ghost p: Progress)
    returns (status: Status, later: real, ghost q: Progress)
    requires i < |checks| && |statuses| == i && Stored(checks, statuses, i) && p.now == now
    modifies checks[i]
    ensures q == Look(p, i, checks[i], world, deadline, timeout)
    ensures q.now == later && q.statuses == p.statuses + [status]
    ensures Stored(checks, statuses + [status], i + 1)
  {
    hide Look, LastTurn;
    status, later, q := RunCheck(checks[i], i, world, now, deadline, timeout, p);
    forall k | 0 <= k < i && LastTurn(checks, k, i + 1)
      ensures checks[k].baseline == Some(statuses[k]) && checks[k].confirmation == Some(statuses[k])
    {
      LastTurnBefore(checks, k, i);
    }
  }

  method RunChecks(checks: seq<Check>, world: World, start: real, timeout: real) returns (statuses: seq<Status>)
    modifies checks
    ensures statuses == RunAll(checks, world, start, timeout).statuses
    ensures Stored(checks, statuses, |checks|)
  {
    statuses := [];
    var deadline, now := start + BUDGET_SECONDS, start;
    ghost var p := Progress(start, [], []);
    assert p == RunAll(checks[..0], world, start, timeout);
    assert Stored(checks, statuses, 0);
    hide RunAll, Look, Stored;
    for i := 0 to |checks|
      invariant p == RunAll(checks[..i], world, start, timeout)
      invariant p.now == now && p.statuses == statuses && |statuses| == i
      invariant Stored(checks, statuses, i)
    {
      RunAllNext(checks, i, world, start, timeout);
      var status;
      status, now, p := RunNext(checks, statuses, i, world, now, deadline, timeout, p);
      statuses := statuses + [status];
    }
    assert checks[..|checks|] == checks;
  }

  /** Runs the applicable checks in order and folds their outcomes; other entries are left alone. */
  method RunValidationBaseline(inventory: Option<seq<Check?>>, world: World, start: real, timeout: real)
    returns (overall: Overall, statuses: seq<Status>)
    modifies if inventory.Some? then ApplicableChecks(inventory.value) else []
    ensures overall.NotAList? <==> inventory.None?
    ensures overall.NoChecks? <==> inventory.Some? && ApplicableChecks(inventory.value) == []
    ensures overall.Ran? ==>
              var checks := ApplicableChecks(inventory.value);
              && statuses == RunAll(checks, world, start, timeout).statuses
              && overall == Ran(Verdict(statuses), |checks|)
              && Stored(checks, statuses, |checks|)
  {
    statuses := [];
    if inventory.None? {
      return NotAList, [];
    }
    var checks := ApplicableChecks(inventory.value);
    if checks == [] {
      return NoChecks, [];
    }
    statuses := RunChecks(checks, world, start, timeout);
    overall := Ran(Verdict(statuses), |statuses|);
  }
}
