/** The start of all cores as a system of interleaved atomic steps: the boot core publishes the
    kernel's entry point and the number of cores, and no core enters the kernel before every
    core has been set up. */
module StartBarrier {

  /** Where a core is in its start-up code; core 0 is the boot core. */
  datatype Stage =
    | SettingUp      // boot core: before `arch_machine_init`
    | StoringEntry   // boot core: before the entry point is stored
    | StoringCount   // boot core: before the number of cores is stored
    | Unlocking      // boot core: before the lock is opened
    | AtLock         // other cores: spinning until the lock opens
    | Unlocked       // other cores: before `arch_machine_init`
    | Calling        // before the entry point is read
    | Arriving(entry: nat)   // before the count of running cores is incremented
    | Waiting(entry: nat)    // spinning until all cores are running
    | InKernel(entry: nat)

  datatype State = State(stages: seq<Stage>, lock: nat, running: nat, coreCount: nat, entryPoint: nat)

  datatype Event = MachineInit(core: nat) | Arrived(core: nat) | Handoff(core: nat, entry: nat)

  const WORD: nat := 0x1_0000_0000

  /** What is fixed for one boot: the number of cores and the kernel's entry point. */
  datatype Boot = Boot(cores: nat, kernel: nat)

  /** Nothing is published before the boot core starts. */
  ghost predicate Initial(b: Boot, s: State) {
    && 1 <= b.cores < 0x1_0000_0000 && |s.stages| == b.cores
    && s.stages[0] == SettingUp && (forall c :: 1 <= c < b.cores ==> s.stages[c] == AtLock)
    && s.lock == 0 && s.running == 0 && s.coreCount == 0 && s.entryPoint == 0
  }

  /** The core's next step only tests a shared variable that keeps it where it is. */
  predicate Spins(s: State, c: nat)
    requires c < |s.stages|
  {
    match s.stages[c]
    case AtLock => s.lock == 0
    case Waiting(_) => s.running < s.coreCount
    case InKernel(_) => true
    case _ => false
  }

  function At(s: State, c: nat, stage: Stage): State
    requires c < |s.stages|
  {
    s.(stages := s.stages[c := stage])
  }

  /** One atomic step of core `c`, and what it does that others may rely on. */
  function Step(b: Boot, s: State, c: nat): (State, seq<Event>)
    requires c < |s.stages|
  {
    if Spins(s, c) then (s, [])
    else
      match s.stages[c]
      case SettingUp => (At(s, c, StoringEntry), [MachineInit(c)])
      case StoringEntry => (At(s, c, StoringCount).(entryPoint := b.kernel), [])
      case StoringCount => (At(s, c, Unlocking).(coreCount := b.cores % WORD), [])
      case Unlocking => (At(s, c, Calling).(lock := 1), [])
      case AtLock => (At(s, c, Unlocked), [])
      case Unlocked => (At(s, c, Calling), [MachineInit(c)])
      case Calling => (At(s, c, Arriving(s.entryPoint)), [])
      case Arriving(e) => (At(s, c, Waiting(e)).(running := (s.running + 1) % WORD), [Arrived(c)])
      case Waiting(e) => (At(s, c, InKernel(e)), [Handoff(c, e)])
      case InKernel(_) => (s, [])
  }

  /** A schedule names cores that exist. */
  predicate Schedules(schedule: seq<nat>, cores: nat) {
    forall i :: 0 <= i < |schedule| ==> schedule[i] < cores
  }

  /** The state and the events after the cores in `schedule` each took a step in turn. */
  function Run(b: Boot, s: State, schedule: seq<nat>): (State, seq<Event>)
    requires Schedules(schedule, |s.stages|)
    ensures |Run(b, s, schedule).0.stages| == |s.stages|
  {
    if schedule == [] then (s, [])
    else
      var n := |schedule| - 1;
      var (t, events) := Run(b, s, schedule[..n]);
      var (u, more) := Step(b, t, schedule[n]);
      (u, events + more)
  }

  // ---------------------------------------------------------------- the invariant

  predicate HasArrived(stage: Stage) { stage.Waiting? || stage.InKernel? }

  function ArrivedCount(stages: seq<Stage>): (n: nat)
    ensures n <= |stages|
  {
    if stages == [] then 0 else ArrivedCount(stages[1..]) + if HasArrived(stages[0]) then 1 else 0
  }

  predicate BootCorePublishing(stage: Stage) {
    stage.SettingUp? || stage.StoringEntry? || stage.StoringCount? || stage.Unlocking?
  }

  /** What one core may rely on where it is. */
  ghost predicate CoreOk(b: Boot, s: State, events: seq<Event>, c: nat)
    requires c < |s.stages|
  {
    var stage := s.stages[c];
    && (BootCorePublishing(stage) <==> c == 0 && s.lock == 0)
    && (stage.AtLock? || stage.Unlocked? ==> c != 0)
    && (!BootCorePublishing(stage) && !stage.AtLock? ==> s.lock == 1)
    && (stage.Arriving? || stage.Waiting? || stage.InKernel? ==> stage.entry == b.kernel)
    && (stage.InKernel? ==> s.running == b.cores)
    && (!stage.SettingUp? && !stage.AtLock? && !stage.Unlocked? ==> MachineInit(c) in events)
    && (HasArrived(stage) ==> Arrived(c) in events)
  }

  ghost predicate Shared(b: Boot, s: State) {
    && |s.stages| == b.cores && 1 <= b.cores < WORD && s.lock <= 1
    && (s.stages[0].StoringCount? || s.stages[0].Unlocking? ==> s.entryPoint == b.kernel)
    && (s.stages[0].Unlocking? ==> s.coreCount == b.cores)
    && (s.lock == 1 ==> s.coreCount == b.cores && s.entryPoint == b.kernel)
    && s.running == ArrivedCount(s.stages)
  }

  /** A hand-off comes after every core's set-up and arrival, and goes to the kernel. */
  ghost predicate HandoffsOrdered(b: Boot, events: seq<Event>) {
    forall k :: 0 <= k < |events| && events[k].Handoff? ==>
      && events[k].entry == b.kernel
      && forall c: nat :: c < b.cores ==> MachineInit(c) in events[..k] && Arrived(c) in events[..k]
  }

  ghost predicate Sound(b: Boot, s: State, events: seq<Event>) {
    && Shared(b, s)
    && (forall c :: 0 <= c < |s.stages| ==> CoreOk(b, s, events, c))
    && HandoffsOrdered(b, events)
  }

  lemma {:induction false} CountPut(stages: seq<Stage>, c: nat, stage: Stage)
    requires c < |stages|
    ensures ArrivedCount(stages[c := stage]) + (if HasArrived(stages[c]) then 1 else 0) ==
            ArrivedCount(stages) + (if HasArrived(stage) then 1 else 0)
  {
    if c == 0 {
      assert stages[c := stage][1..] == stages[1..];
    } else {
      CountPut(stages[1..], c - 1, stage);
      assert stages[c := stage][1..] == stages[1..][c - 1 := stage];
    }
  }

  /** The count reaches the number of cores exactly when every core has arrived. */
  lemma {:induction false} CountFull(stages: seq<Stage>)
    ensures ArrivedCount(stages) == |stages| <==> forall c :: 0 <= c < |stages| ==> HasArrived(stages[c])
  {
    if stages != [] {
      CountFull(stages[1..]);
      assert forall c :: 1 <= c < |stages| ==> stages[c] == stages[1..][c - 1];
    }
  }

  lemma {:induction false} CountNone(stages: seq<Stage>)
    requires forall c :: 0 <= c < |stages| ==> !HasArrived(stages[c])
    ensures ArrivedCount(stages) == 0
  {
    if stages != [] {
      CountNone(stages[1..]);
    }
  }

  lemma InitialSound(b: Boot, s: State)
    requires Initial(b, s)
    ensures Sound(b, s, [])
  {
    CountNone(s.stages);
  }

  /** A core that enters the kernel does so after everybody has arrived. */
  lemma StepOrdered(b: Boot, s: State, events: seq<Event>, c: nat)
    requires Sound(b, s, events) && c < |s.stages|
    ensures HandoffsOrdered(b, events + Step(b, s, c).1)
  {
    var more := Step(b, s, c).1;
    var all := events + more;
    assert CoreOk(b, s, events, c);
    CountFull(s.stages);
    forall k | 0 <= k < |all| && all[k].Handoff?
      ensures all[k].entry == b.kernel
      ensures forall d: nat :: d < b.cores ==> MachineInit(d) in all[..k] && Arrived(d) in all[..k]
    {
      if k < |events| {
        assert all[..k] == events[..k];
      } else {
        assert all[..k] == events;
        forall d: nat | d < b.cores ensures MachineInit(d) in events && Arrived(d) in events {
          assert CoreOk(b, s, events, d);
        }
      }
    }
  }

  /** A step of core `c` changes no ground that core `d` stands on. */
  lemma StepCoreOk(b: Boot, s: State, events: seq<Event>, c: nat, d: nat)
    requires Sound(b, s, events) && c < |s.stages| && d < |s.stages|
    ensures CoreOk(b, Step(b, s, c).0, events + Step(b, s, c).1, d)
  {
    hide HandoffsOrdered;
    var t := Step(b, s, c).0;
    assert CoreOk(b, s, events, c) && CoreOk(b, s, events, d) && CoreOk(b, s, events, 0);
    if !Spins(s, c) {
      CountPut(s.stages, c, t.stages[c]);
      CountFull(s.stages);
      assert s.stages[c].Arriving? ==> s.running < b.cores;
    }
  }

  lemma StepShared(b: Boot, s: State, events: seq<Event>, c: nat)
    requires Sound(b, s, events) && c < |s.stages|
    ensures Shared(b, Step(b, s, c).0)
  {
    hide HandoffsOrdered;
    assert CoreOk(b, s, events, c) && CoreOk(b, s, events, 0);
    if !Spins(s, c) {
      CountPut(s.stages, c, Step(b, s, c).0.stages[c]);
    }
  }

  /** Every step of every core keeps the invariant. */
  lemma StepSound(b: Boot, s: State, events: seq<Event>, c: nat)
    requires Sound(b, s, events) && c < |s.stages|
    ensures Sound(b, Step(b, s, c).0, events + Step(b, s, c).1)
  {
    StepOrdered(b, s, events, c);
    StepShared(b, s, events, c);
    forall d | 0 <= d < |s.stages| ensures CoreOk(b, Step(b, s, c).0, events + Step(b, s, c).1, d) {
      StepCoreOk(b, s, events, c, d);
    }
  }

  lemma {:induction false} RunSound(b: Boot, s: State, before: seq<Event>, schedule: seq<nat>)
    requires Sound(b, s, before) && Schedules(schedule, |s.stages|)
    ensures Sound(b, Run(b, s, schedule).0, before + Run(b, s, schedule).1)
  {
    hide Sound, Step;
    if schedule == [] {
      assert before + [] == before;
    } else {
      var n := |schedule| - 1;
      RunSound(b, s, before, schedule[..n]);
      var (t, events) := Run(b, s, schedule[..n]);
      StepSound(b, t, before + events, schedule[n]);
      assert before + (events + Step(b, t, schedule[n]).1) == (before + events) + Step(b, t, schedule[n]).1;
    }
  }

  /** On every interleaving, a core enters the kernel only after all cores have been set up
      and have arrived, and only at the kernel's entry point. */
  lemma NobodyEntersEarly(b: Boot, s: State, schedule: seq<nat>, k: nat)
    requires Initial(b, s) && Schedules(schedule, |s.stages|)
    requires var events := Run(b, s, schedule).1; k < |events| && events[k].Handoff?
    ensures var events := Run(b, s, schedule).1;
            && events[k].entry == b.kernel
            && forall c: nat :: c < b.cores ==> MachineInit(c) in events[..k] && Arrived(c) in events[..k]
  {
    InitialSound(b, s);
    RunSound(b, s, [], schedule);
    assert [] + Run(b, s, schedule).1 == Run(b, s, schedule).1;
  }

  // ---------------------------------------------------------------- progress

  /** Steps a core has left before it is in the kernel. */
  function Left(stage: Stage): nat {
    match stage
    case SettingUp => 7
    case StoringEntry => 6
    case StoringCount => 5
    case Unlocking => 4
    case AtLock => 5
    case Unlocked => 4
    case Calling => 3
    case Arriving(_) => 2
    case Waiting(_) => 1
    case InKernel(_) => 0
  }

  function AllLeft(stages: seq<Stage>): nat {
    if stages == [] then 0 else Left(stages[0]) + AllLeft(stages[1..])
  }

  lemma {:induction false} AllLeftPut(stages: seq<Stage>, c: nat, stage: Stage)
    requires c < |stages|
    ensures AllLeft(stages[c := stage]) + Left(stages[c]) == AllLeft(stages) + Left(stage)
  {
    if c == 0 {
      assert stages[c := stage][1..] == stages[1..];
    } else {
      AllLeftPut(stages[1..], c - 1, stage);
      assert stages[c := stage][1..] == stages[1..][c - 1 := stage];
    }
  }

  /** Every step that does not spin brings all cores together one step closer to the kernel. */
  lemma StepProgress(b: Boot, s: State, c: nat)
    requires c < |s.stages|
    ensures AllLeft(Step(b, s, c).0.stages) == AllLeft(s.stages) - if Spins(s, c) then 0 else 1
  {
    if !Spins(s, c) {
      AllLeftPut(s.stages, c, Step(b, s, c).0.stages[c]);
    }
  }

  /** Unless all cores are in the kernel, some core can take a step that does not spin. */
  lemma SomebodyMoves(b: Boot, s: State, events: seq<Event>) returns (c: nat)
    requires Sound(b, s, events) && exists d :: 0 <= d < |s.stages| && !s.stages[d].InKernel?
    ensures c < |s.stages| && !Spins(s, c)
  {
    assert CoreOk(b, s, events, 0);
    if BootCorePublishing(s.stages[0]) {
      c := 0;
    } else if d :| 0 <= d < |s.stages| && !HasArrived(s.stages[d]) {
      assert CoreOk(b, s, events, d);
      c := d;
    } else {
      var d :| 0 <= d < |s.stages| && !s.stages[d].InKernel?;
      CountFull(s.stages);
      c := d;
    }
  }

  /** From every reachable state the start can be completed, in as many steps as are left. */
  lemma {:induction false} CanFinish(b: Boot, s: State, events: seq<Event>) returns (schedule: seq<nat>)
    requires Sound(b, s, events)
    ensures |schedule| == AllLeft(s.stages) && Schedules(schedule, |s.stages|)
    ensures forall c :: 0 <= c < b.cores ==> Run(b, s, schedule).0.stages[c].InKernel?
    decreases AllLeft(s.stages)
  {
    if exists d :: 0 <= d < |s.stages| && !s.stages[d].InKernel? {
      var c := SomebodyMoves(b, s, events);
      StepProgress(b, s, c);
      StepSound(b, s, events, c);
      var rest := CanFinish(b, Step(b, s, c).0, events + Step(b, s, c).1);
      schedule := [c] + rest;
      RunFirst(b, s, c, rest);
    } else {
      NothingLeft(s.stages);
      schedule := [];
    }
  }

  lemma {:induction false} NothingLeft(stages: seq<Stage>)
    requires forall c :: 0 <= c < |stages| ==> stages[c].InKernel?
    ensures AllLeft(stages) == 0
  {
    if stages != [] {
      NothingLeft(stages[1..]);
    }
  }

  lemma {:induction false} RunFirst(b: Boot, s: State, c: nat, rest: seq<nat>)
    requires c < |s.stages| && Schedules(rest, |s.stages|)
    ensures Run(b, s, [c] + rest).0 == Run(b, Step(b, s, c).0, rest).0
  {
    var all := [c] + rest;
    if rest == [] {
      assert all[..0] == [] && all[0] == c && all == [c];
    } else {
      var n := |rest| - 1;
      RunFirst(b, s, c, rest[..n]);
      assert all[..|all| - 1] == [c] + rest[..n] && all[|all| - 1] == rest[n];
    }
  }

  /** How many steps of a run did not spin. */
  function Moves(b: Boot, s: State, schedule: seq<nat>): nat
    requires Schedules(schedule, |s.stages|)
  {
    if schedule == [] then 0
    else
      var n := |schedule| - 1;
      var t := Run(b, s, schedule[..n]).0;
      Moves(b, s, schedule[..n]) + if Spins(t, schedule[n]) then 0 else 1
  }

  /** However the cores are scheduled, the steps that do not spin and those left add up, so
      a run that never finishes spins all the time from some point on. */
  lemma {:induction false} MovesBounded(b: Boot, s: State, schedule: seq<nat>)
    requires Schedules(schedule, |s.stages|)
    ensures Moves(b, s, schedule) + AllLeft(Run(b, s, schedule).0.stages) == AllLeft(s.stages)
  {
    if schedule != [] {
      var n := |schedule| - 1;
      MovesBounded(b, s, schedule[..n]);
      StepProgress(b, Run(b, s, schedule[..n]).0, schedule[n]);
    }
  }

  // ---------------------------------------------------------------- fair schedules

  /** A round gives every core at least one step. */
  ghost predicate Names(round: seq<nat>, cores: nat) { forall c: nat :: c < cores ==> c in round }

  ghost predicate Rounds(rounds: seq<seq<nat>>, cores: nat) {
    forall i :: 0 <= i < |rounds| ==> Schedules(rounds[i], cores) && Names(rounds[i], cores)
  }

  /** The rounds one after the other. */
  ghost function InTurn(rounds: seq<seq<nat>>, cores: nat): (schedule: seq<nat>)
    requires Rounds(rounds, cores)
    ensures Schedules(schedule, cores)
  {
    if rounds == [] then [] else InTurn(rounds[..|rounds| - 1], cores) + rounds[|rounds| - 1]
  }

  /** A run that has changed anything has come closer to the end. */
  lemma {:induction false} SameOrCloser(b: Boot, s: State, schedule: seq<nat>)
    requires Schedules(schedule, |s.stages|)
    ensures var t := Run(b, s, schedule).0; t == s || AllLeft(t.stages) < AllLeft(s.stages)
  {
    if schedule != [] {
      var n := |schedule| - 1;
      SameOrCloser(b, s, schedule[..n]);
      StepProgress(b, Run(b, s, schedule[..n]).0, schedule[n]);
    }
  }

  lemma {:induction false} NeverFurther(b: Boot, s: State, schedule: seq<nat>, n: nat)
    requires Schedules(schedule, |s.stages|) && n <= |schedule|
    ensures AllLeft(Run(b, s, schedule).0.stages) <= AllLeft(Run(b, s, schedule[..n]).0.stages)
    decreases |schedule|
  {
    if n == |schedule| {
      assert schedule[..n] == schedule;
    } else {
      var m := |schedule| - 1;
      NeverFurther(b, s, schedule[..m], n);
      assert schedule[..m][..n] == schedule[..n];
      StepProgress(b, Run(b, s, schedule[..m]).0, schedule[m]);
    }
  }

  /** In every round, some core moves. */
  lemma RoundMoves(b: Boot, s: State, events: seq<Event>, round: seq<nat>)
    requires Sound(b, s, events) && exists d :: 0 <= d < |s.stages| && !s.stages[d].InKernel?
    requires Schedules(round, b.cores) && Names(round, b.cores)
    ensures AllLeft(Run(b, s, round).0.stages) < AllLeft(s.stages)
  {
    var c := SomebodyMoves(b, s, events);
    assert c in round;
    var i :| 0 <= i < |round| && round[i] == c;
    SameOrCloser(b, s, round[..i]);
    StepProgress(b, Run(b, s, round[..i]).0, c);
    var upTo := round[..i + 1];
    assert upTo[..i] == round[..i] && upTo[i] == c;
    NeverFurther(b, s, round, i + 1);
  }

  lemma {:induction false} RunOn(b: Boot, s: State, first: seq<nat>, rest: seq<nat>)
    requires Schedules(first, |s.stages|) && Schedules(rest, |s.stages|)
    ensures Run(b, s, first + rest).0 == Run(b, Run(b, s, first).0, rest).0
  {
    var all := first + rest;
    if rest == [] {
      assert all == first;
    } else {
      var n := |rest| - 1;
      RunOn(b, s, first, rest[..n]);
      assert all[..|all| - 1] == first + rest[..n] && all[|all| - 1] == rest[n];
    }
  }

  lemma {:induction false} EnoughRounds(b: Boot, s: State, events: seq<Event>, rounds: seq<seq<nat>>)
    requires Sound(b, s, events) && Rounds(rounds, b.cores)
    ensures var t := Run(b, s, InTurn(rounds, b.cores)).0;
            AllLeft(t.stages) == 0 || AllLeft(t.stages) + |rounds| <= AllLeft(s.stages)
  {
    hide Sound, Step;
    SoundShared(b, s, events);
    if rounds != [] {
      var n := |rounds| - 1;
      EnoughRounds(b, s, events, rounds[..n]);
      var first := InTurn(rounds[..n], b.cores);
      var (t, more) := Run(b, s, first);
      RunSound(b, s, events, first);
      RunOn(b, s, first, rounds[n]);
      NeverFurther(b, t, rounds[n], 0);
      assert rounds[n][..0] == [];
      if exists d :: 0 <= d < |t.stages| && !t.stages[d].InKernel? {
        RoundMoves(b, t, events + more, rounds[n]);
      } else {
        NothingLeft(t.stages);
      }
    }
  }

  lemma SoundShared(b: Boot, s: State, events: seq<Event>)
    requires Sound(b, s, events)
    ensures Shared(b, s)
  {
  }

  lemma {:induction false} LeftNone(stages: seq<Stage>)
    requires AllLeft(stages) == 0
    ensures forall c :: 0 <= c < |stages| ==> stages[c].InKernel?
  {
    if stages != [] {
      LeftNone(stages[1..]);
      assert forall c :: 1 <= c < |stages| ==> stages[c] == stages[1..][c - 1];
    }
  }

  lemma {:induction false} LockedLeft(stages: seq<Stage>)
    requires forall c :: 0 <= c < |stages| ==> stages[c] == AtLock
    ensures AllLeft(stages) == 5 * |stages|
  {
    if stages != [] {
      LockedLeft(stages[1..]);
    }
  }

  /** Whatever the order within each round, after five rounds for every core and two more all
      cores are in the kernel. */
  lemma FairFinish(b: Boot, s: State, rounds: seq<seq<nat>>)
    requires Initial(b, s) && Rounds(rounds, b.cores) && |rounds| >= 5 * b.cores + 2
    ensures forall c :: 0 <= c < b.cores ==>
        Run(b, s, InTurn(rounds, b.cores)).0.stages[c] == InKernel(b.kernel)
  {
    InitialSound(b, s);
    LockedLeft(s.stages[1..]);
    EnoughRounds(b, s, [], rounds);
    var (t, events) := Run(b, s, InTurn(rounds, b.cores));
    RunSound(b, s, [], InTurn(rounds, b.cores));
    LeftNone(t.stages);
    forall c | 0 <= c < b.cores ensures t.stages[c] == InKernel(b.kernel) {
      assert CoreOk(b, t, [] + events, c);
    }
  }
}
