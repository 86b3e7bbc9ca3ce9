/**
 The server's bound on concurrent children (src/server/vomsd.cc:188-201, 597-600, 648-807): the
 accept loop of Run, its children, and the SIGCHLD handler that reaps them at any moment.
 */
module Concurrency {

  /** Where the parent stands in its loop. */
  datatype Pc = Selecting | Counted | Waiting | Forking

  /** `active` is active_requests; a child is running until it exits, and a zombie from then
      until it is reaped by wait or by the handler's waitpid. `reaped` says whether the handler
      has reaped a child since the parent entered wait. */
  datatype State = State(pc: Pc, active: nat, max: nat, running: nat, zombies: nat, reaped: bool)

  function Unreaped(s: State): nat {
    s.running + s.zombies
  }

  datatype Action =
    | Accept          // select reports a connection; active_requests++
    | EnterWait       // active_requests > max_active_requests
    | SkipWait        // no need to wait
    | WaitReaps       // wait returns with a zombie; --active_requests
    | WaitNoChild     // wait returns since there is no child; --active_requests
    | WaitAfterReap   // wait returns, interrupted by the handler that reaped; --active_requests
    | ForkChild
    | ForkFails
    | ChildExits      // any time
    | HandlerReaps    // any time: one successful waitpid of the SIGCHLD handler
    | WaitInterrupted // wait returns although nothing was reaped; not part of Step

  /** The steps of the system, as long as wait returns only after a child was reaped or when
      none remains. */
  ghost predicate Step(s: State, a: Action, t: State) {
    match a
    case Accept => s.pc == Selecting && t == s.(pc := Counted, active := s.active + 1)
    case EnterWait => s.pc == Counted && s.active > s.max && t == s.(pc := Waiting, reaped := false)
    case SkipWait => s.pc == Counted && s.active <= s.max && t == s.(pc := Forking)
    case WaitReaps => s.pc == Waiting && s.zombies > 0 && s.active > 0
        && t == s.(pc := Counted, zombies := s.zombies - 1, active := s.active - 1)
    case WaitNoChild => s.pc == Waiting && Unreaped(s) == 0 && s.active > 0
        && t == s.(pc := Counted, active := s.active - 1)
    case WaitAfterReap => s.pc == Waiting && s.reaped && s.active > 0 && t == s.(pc := Counted, active := s.active - 1)
    case ForkChild => s.pc == Forking && t == s.(pc := Selecting, running := s.running + 1)
    case ForkFails => s.pc == Forking && t == s.(pc := Selecting)
    case ChildExits => s.running > 0 && t == s.(running := s.running - 1, zombies := s.zombies + 1)
    case HandlerReaps => s.zombies > 0 && t == s.(zombies := s.zombies - 1, reaped := true)
    case WaitInterrupted => false
  }

  /** The constructor's check of the configured bound. */
  function EffectiveMax(configured: int): (max: nat)
    ensures configured > 0 ==> max == configured
    ensures configured <= 0 ==> max == 50
  {
    if configured <= 0 then 50 else configured
  }

  /** The server starts without children, with the bound that was configured. */
  ghost predicate Initial(s: State) {
    && s.pc == Selecting && s.active == 0 && s.running == 0 && s.zombies == 0
    && exists configured: int :: s.max == EffectiveMax(configured)
  }

  ghost predicate Invariant(s: State) {
    && s.max > 0
    && match s.pc
       case Selecting => Unreaped(s) <= s.active <= s.max
       case Counted => Unreaped(s) < s.active <= s.max + 1
       case Waiting => Unreaped(s) < s.active == s.max + 1 && (s.reaped ==> Unreaped(s) < s.max)
       case Forking => Unreaped(s) < s.active <= s.max
  }

  lemma {:induction false} StepKeepsInvariant(s: State, a: Action, t: State)
    requires Invariant(s) && Step(s, a, t)
    ensures Invariant(t) && t.max == s.max
  {
  }

  /** A run: each state follows from the one before by some action. */
  ghost predicate IsRun(run: seq<State>, actions: seq<Action>) {
    && run != [] && |actions| == |run| - 1
    && Initial(run[0])
    && forall i :: 0 <= i < |actions| ==> Step(run[i], actions[i], run[i + 1])
  }

  /** However accepts, forks, exits and the two ways of reaping interleave, there are never
      more unreaped children than the bound; and whenever the parent is back at select, the
      counter is between the number of unreaped children and the bound. */
  lemma {:induction false} ChildrenAreBounded(run: seq<State>, actions: seq<Action>, n: nat)
    requires IsRun(run, actions) && n < |run|
    ensures run[n].max == run[0].max
    ensures Unreaped(run[n]) <= run[0].max
    ensures run[n].pc == Selecting ==> Unreaped(run[n]) <= run[n].active <= run[0].max
    ensures Invariant(run[n])
  {
    if n > 0 {
      ChildrenAreBounded(run, actions, n - 1);
      StepKeepsInvariant(run[n - 1], actions[n - 1], run[n]);
    }
  }

  /** The server is never stuck: while it waits, a child exists that can exit or be reaped, or
      none exists and wait returns. */
  lemma {:induction false} NeverStuck(run: seq<State>, actions: seq<Action>, n: nat)
    requires IsRun(run, actions) && n < |run|
    ensures exists a: Action, t: State :: Step(run[n], a, t)
  {
    ChildrenAreBounded(run, actions, n);
    var s := run[n];
    match s.pc {
      case Selecting => assert Step(s, Accept, s.(pc := Counted, active := s.active + 1));
      case Counted =>
        if s.active > s.max { assert Step(s, EnterWait, s.(pc := Waiting, reaped := false)); }
        else { assert Step(s, SkipWait, s.(pc := Forking)); }
      case Waiting =>
        var t := s.(pc := Counted, active := s.active - 1);
        if s.zombies > 0 { assert Step(s, WaitReaps, t.(zombies := s.zombies - 1)); }
        else if s.running > 0 { assert Step(s, ChildExits, s.(running := s.running - 1, zombies := s.zombies + 1)); }
        else { assert Step(s, WaitNoChild, t); }
      case Forking => assert Step(s, ForkFails, s.(pc := Selecting));
    }
  }

  /** A running child can exit and then be reaped, a zombie can be reaped. */
  function StepsLeft(s: State): nat {
    2 * s.running + s.zombies
  }

  /** Every wait comes to an end: while the parent waits, each step uses up one of the at most
      two steps that are left to every child, to exit and to be reaped. Since it is never stuck,
      the step behind the last of them is the return of wait. */
  lemma {:induction false} WaitEnds(run: seq<State>, actions: seq<Action>, n: nat, m: nat)
    requires IsRun(run, actions) && n <= m < |run|
    requires forall i :: n <= i <= m ==> run[i].pc == Waiting
    ensures StepsLeft(run[m]) + (m - n) == StepsLeft(run[n]) <= 2 * run[0].max
  {
    ChildrenAreBounded(run, actions, n);
    if n < m {
      WaitEnds(run, actions, n, m - 1);
      assert Step(run[m - 1], actions[m - 1], run[m]);
    }
  }

  /** And it can end at once when all children have exited: one more step brings it back. */
  lemma {:induction false} WaitCanReturn(run: seq<State>, actions: seq<Action>, n: nat)
    requires IsRun(run, actions) && n < |run| && run[n].pc == Waiting && run[n].running == 0
    ensures exists a: Action, t: State :: Step(run[n], a, t) && t.pc == Counted && t.active == run[n].active - 1
  {
    ChildrenAreBounded(run, actions, n);
    var s := run[n];
    if s.zombies > 0 {
      assert Step(s, WaitReaps, s.(pc := Counted, zombies := s.zombies - 1, active := s.active - 1));
    } else {
      assert Step(s, WaitNoChild, s.(pc := Counted, active := s.active - 1));
    }
  }

  // ----- what the counter counts

  function Accepts(actions: seq<Action>): nat {
    if actions == [] then 0
    else Accepts(actions[..|actions| - 1]) + if actions[|actions| - 1].Accept? then 1 else 0
  }

  function Min(a: nat, b: nat): nat {
    if a < b then a else b
  }

  /** The counter goes by the connections accepted so far, and by nothing else. */
  ghost predicate CountsAccepts(accepts: nat, s: State) {
    match s.pc
    case Selecting => s.active == Min(accepts, s.max)
    case Counted => 0 < accepts && (s.active == Min(accepts - 1, s.max) + 1 || s.active == Min(accepts, s.max))
    case Waiting => s.max < accepts && s.active == s.max + 1
    case Forking => s.active == Min(accepts, s.max)
  }

  lemma {:induction false} StepCountsAccepts(accepts: nat, s: State, a: Action, t: State)
    requires Invariant(s) && CountsAccepts(accepts, s) && Step(s, a, t)
    ensures CountsAccepts(if a.Accept? then accepts + 1 else accepts, t)
  {
  }

  /** In every run, active_requests at select is the number of connections accepted, up to the
      bound: that children exit and are reaped does not lower it. So the server waits for the
      connections after the first `max` ones, for all of them and no others, however many
      children there are. */
  lemma {:induction false} CounterCountsAccepts(run: seq<State>, actions: seq<Action>, n: nat)
    requires IsRun(run, actions) && n < |run|
    ensures CountsAccepts(Accepts(actions[..n]), run[n])
    ensures run[n].pc == Selecting ==> run[n].active == Min(Accepts(actions[..n]), run[0].max)
    ensures 0 < n && actions[n - 1].Accept? ==> (run[n].active > run[n].max <==> Accepts(actions[..n]) > run[0].max)
    ensures n < |actions| && actions[n].EnterWait? ==> Accepts(actions[..n]) > run[0].max
  {
    ChildrenAreBounded(run, actions, n);
    assert n < |actions| ==> Step(run[n], actions[n], run[n + 1]);
    if n > 0 {
      CounterCountsAccepts(run, actions, n - 1);
      ChildrenAreBounded(run, actions, n - 1);
      assert actions[..n][..n - 1] == actions[..n - 1];
      assert Step(run[n - 1], actions[n - 1], run[n]);
      StepCountsAccepts(Accepts(actions[..n - 1]), run[n - 1], actions[n - 1], run[n]);
    }
  }

  // ----- the assumption on wait is needed

  /** A wait that an interrupt can end before anything was reaped. */
  ghost predicate StepWithInterrupts(s: State, a: Action, t: State) {
    || Step(s, a, t)
    || (a.WaitInterrupted? && s.pc == Waiting && s.active > 0 && t == s.(pc := Counted, active := s.active - 1))
  }

  ghost predicate IsInterruptedRun(run: seq<State>, actions: seq<Action>) {
    && run != [] && |actions| == |run| - 1
    && Initial(run[0])
    && forall i :: 0 <= i < |actions| ==> StepWithInterrupts(run[i], actions[i], run[i + 1])
  }

  function Interrupts(actions: seq<Action>): nat {
    if actions == [] then 0
    else Interrupts(actions[..|actions| - 1]) + if actions[|actions| - 1].WaitInterrupted? then 1 else 0
  }

  /** The invariant when k waits were cut short: up to k children are not counted. */
  ghost predicate InvariantWith(k: nat, s: State) {
    && s.max > 0
    && match s.pc
       case Selecting => Unreaped(s) <= s.active + k && s.active <= s.max
       case Counted => Unreaped(s) < s.active + k && s.active <= s.max + 1
       case Waiting => Unreaped(s) < s.active + k && s.active == s.max + 1 && (s.reaped ==> Unreaped(s) < s.max + k)
       case Forking => Unreaped(s) < s.active + k && s.active <= s.max
  }

  lemma {:induction false} InterruptedStepKeepsInvariant(k: nat, s: State, a: Action, t: State)
    requires InvariantWith(k, s) && StepWithInterrupts(s, a, t)
    ensures InvariantWith(if a.WaitInterrupted? then k + 1 else k, t) && t.max == s.max
  {
  }

  /** In every run, the unreaped children exceed the bound by no more than the number of waits
      that were cut short. */
  lemma {:induction false} InterruptsBoundTheExcess(run: seq<State>, actions: seq<Action>, n: nat)
    requires IsInterruptedRun(run, actions) && n < |run|
    ensures InvariantWith(Interrupts(actions[..n]), run[n]) && run[n].max == run[0].max
    ensures Unreaped(run[n]) <= run[0].max + Interrupts(actions[..n])
  {
    if n > 0 {
      InterruptsBoundTheExcess(run, actions, n - 1);
      assert actions[..n][..n - 1] == actions[..n - 1];
      InterruptedStepKeepsInvariant(Interrupts(actions[..n - 1]), run[n - 1], actions[n - 1], run[n]);
    }
  }

  /** The state at select with the counter at `active` and that many children running. */
  function Idle(max: nat, active: nat, running: nat, reaped: bool): State {
    State(Selecting, active, max, running, 0, reaped)
  }

  lemma {:induction false} OneMore(run: seq<State>, actions: seq<Action>, a: Action, t: State)
    returns (run': seq<State>, actions': seq<Action>)
    requires IsInterruptedRun(run, actions) && StepWithInterrupts(run[|run| - 1], a, t)
    ensures IsInterruptedRun(run', actions') && run'[|run'| - 1] == t && run'[0] == run[0]
    ensures Interrupts(actions') == Interrupts(actions) + if a.WaitInterrupted? then 1 else 0
  {
    run', actions' := run + [t], actions + [a];
    assert actions'[..|actions|] == actions;
    forall i | 0 <= i < |actions'| ensures StepWithInterrupts(run'[i], actions'[i], run'[i + 1]) {
      if i < |actions| {
        assert run'[i] == run[i] && run'[i + 1] == run[i + 1] && actions'[i] == actions[i];
      }
    }
  }

  /** The server fills up: as many children as the bound allows, no wait cut short. */
  lemma {:induction false} FillingUp(max: nat, active: nat) returns (run: seq<State>, actions: seq<Action>)
    requires 0 < max && active <= max
    ensures IsInterruptedRun(run, actions) && run[|run| - 1] == Idle(max, active, active, false)
    ensures Interrupts(actions) == 0
  {
    hide IsInterruptedRun;
    if active == 0 {
      run, actions := [Idle(max, 0, 0, false)], [];
      StartsIdle(max);
    } else {
      run, actions := FillingUp(max, active - 1);
      var s := Idle(max, active - 1, active - 1, false);
      run, actions := OneMore(run, actions, Accept, s.(pc := Counted, active := active));
      run, actions := OneMore(run, actions, SkipWait, s.(pc := Forking, active := active));
      run, actions := OneMore(run, actions, ForkChild, Idle(max, active, active, false));
    }
  }

  lemma {:induction false} StartsIdle(max: nat)
    requires 0 < max
    ensures IsInterruptedRun([Idle(max, 0, 0, false)], [])
  {
    assert max == EffectiveMax(max);
  }

  /** And the excess is attained: for every bound and every k there is a run in which k waits are
      cut short and k children too many are there. One such wait breaks the bound. */
  lemma {:induction false} ExcessIsAttained(max: nat, k: nat) returns (run: seq<State>, actions: seq<Action>)
    requires 0 < max
    ensures IsInterruptedRun(run, actions) && run[0].max == max && Interrupts(actions) == k
    ensures run[|run| - 1] == Idle(max, max, max + k, false) && Unreaped(run[|run| - 1]) == max + k
  {
    hide IsInterruptedRun;
    if k == 0 {
      run, actions := FillingUp(max, max);
      SameBound(run, actions);
    } else {
      run, actions := ExcessIsAttained(max, k - 1);
      var s := Idle(max, max, max + k - 1, false);
      run, actions := OneMore(run, actions, Accept, s.(pc := Counted, active := max + 1));
      run, actions := OneMore(run, actions, EnterWait, s.(pc := Waiting, active := max + 1));
      run, actions := OneMore(run, actions, WaitInterrupted, s.(pc := Counted));
      run, actions := OneMore(run, actions, SkipWait, s.(pc := Forking));
      run, actions := OneMore(run, actions, ForkChild, Idle(max, max, max + k, false));
    }
  }

  lemma {:induction false} SameBound(run: seq<State>, actions: seq<Action>)
    requires IsInterruptedRun(run, actions)
    ensures run[|run| - 1].max == run[0].max
  {
    InterruptsBoundTheExcess(run, actions, |run| - 1);
  }

  // ----- waiting without need

  /** As long as no wait was cut short, a run is one of the system as it is. */
  lemma {:induction false} UninterruptedRun(run: seq<State>, actions: seq<Action>)
    requires IsInterruptedRun(run, actions) && Interrupts(actions) == 0
    ensures IsRun(run, actions)
  {
    forall i | 0 <= i < |actions| ensures Step(run[i], actions[i], run[i + 1]) {
      NoInterruptAt(actions, i);
    }
  }

  lemma {:induction false} NoInterruptAt(actions: seq<Action>, i: nat)
    requires Interrupts(actions) == 0 && i < |actions|
    ensures !actions[i].WaitInterrupted?
  {
    if i < |actions| - 1 {
      NoInterruptAt(actions[..|actions| - 1], i);
    }
  }

  /** Children exit and are reaped by the handler while the parent is at select. */
  lemma {:induction false} AllReaped(max: nat, running: nat, b: bool, run: seq<State>, actions: seq<Action>)
    returns (run': seq<State>, actions': seq<Action>, reaped: bool)
    requires IsInterruptedRun(run, actions) && Interrupts(actions) == 0
    requires run[|run| - 1] == Idle(max, max, running, b)
    ensures IsInterruptedRun(run', actions') && Interrupts(actions') == 0
    ensures run'[|run'| - 1] == Idle(max, max, 0, reaped)
    decreases running
  {
    hide IsInterruptedRun;
    run', actions', reaped := run, actions, b;
    if running > 0 {
      var s := Idle(max, max, running - 1, b);
      run', actions' := OneMore(run', actions', ChildExits, s.(zombies := 1));
      run', actions' := OneMore(run', actions', HandlerReaps, Idle(max, max, running - 1, true));
      run', actions', reaped := AllReaped(max, running - 1, true, run', actions');
    }
  }

  /** For every bound there is a run in which the server waits although it has no child at all. */
  lemma {:induction false} WaitsWithoutChildren(max: nat) returns (run: seq<State>, actions: seq<Action>)
    requires 0 < max
    ensures IsRun(run, actions)
    ensures run[|run| - 1].pc == Waiting && run[|run| - 1].max == max && Unreaped(run[|run| - 1]) == 0
  {
    hide IsInterruptedRun, IsRun;
    run, actions := FillingUp(max, max);
    var reaped;
    run, actions, reaped := AllReaped(max, max, false, run, actions);
    var s := Idle(max, max, 0, reaped);
    run, actions := OneMore(run, actions, Accept, s.(pc := Counted, active := max + 1));
    run, actions := OneMore(run, actions, EnterWait, State(Waiting, max + 1, max, 0, 0, false));
    UninterruptedRun(run, actions);
  }
}
