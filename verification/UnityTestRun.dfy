/**
 The test-run core of `libs/unity/unity_fixture.c` as functions: the pointer undo log, the
 verdict of a test, and the counters. The code under test is a sequence of actions; a
 `longjmp` out of a phase is the outcome that the rest of the phase is not executed.
 */
module UnityTestRun {
  import opened Wrappers
  import opened Arithmetic

  type Value = int

  /* What setup, body and teardown may do, as far as the fixture can see. */
  datatype Action =
    | SetPointer(loc: nat, value: Value)  // UT_PTR_SET
    | Assign(loc: nat, value: Value)      // a plain assignment to the location
    | Check(holds: bool)                  // TEST_ASSERT and the like: a bare condition
    | Assert(holds: bool)                 // an assertion function: aborts once there is a verdict
    | Ignore                              // TEST_IGNORE
    | Pass                                // TEST_PASS: abort without a verdict

  datatype Test = Test(setup: seq<Action>, body: seq<Action>, teardown: seq<Action>)

  datatype Saved = Saved(loc: nat, oldValue: Value)

  /* The memory of the program under test, pointer_store up to pointer_index, and the two
     flags of the current test. */
  datatype State = State(cells: seq<Value>, store: seq<Saved>, failed: bool, ignored: bool)

  ghost predicate InRange(actions: seq<Action>, n: nat) {
    forall k :: 0 <= k < |actions| ==>
      match actions[k]
      case SetPointer(loc, _) => loc < n
      case Assign(loc, _) => loc < n
      case _ => true
  }

  ghost predicate TestInRange(t: Test, n: nat) {
    InRange(t.setup, n) && InRange(t.body, n) && InRange(t.teardown, n)
  }

  //////////////////////////////////////////////////////////////////////////////
  // Actions
  //////////////////////////////////////////////////////////////////////////////

  /* UnityFail and UnityIgnore: a verdict that is already there is not changed. */
  function Fail(s: State): State {
    if s.failed || s.ignored then s else s.(failed := true)
  }

  function IgnoreIt(s: State): State {
    if s.failed || s.ignored then s else s.(ignored := true)
  }

  /* Whether UnityPointer_Set has room; otherwise it fails with "Too many pointers set". */
  predicate Accepts(max: nat, s: State) {
    |s.store| < max
  }

  /* One action: the new state, and whether it aborts the phase. */
  function Do(max: nat, s: State, a: Action): (State, bool)
    requires InRange([a], |s.cells|)
  {
    assert InRange([a], |s.cells|) ==> (a.SetPointer? || a.Assign? ==> a.loc < |s.cells|) by {
      assert [a][0] == a;
    }
    match a
    case SetPointer(loc, value) =>
      if Accepts(max, s) then
        (s.(store := s.store + [Saved(loc, s.cells[loc])], cells := s.cells[loc := value]), false)
      else (Fail(s), true)
    case Assign(loc, value) => (s.(cells := s.cells[loc := value]), false)
    case Check(holds) => if holds then (s, false) else (Fail(s), true)
    case Assert(holds) =>
      if s.failed || s.ignored then (s, true)
      else if holds then (s, false)
      else (Fail(s), true)
    case Ignore => (IgnoreIt(s), true)
    case Pass => (s, true)
  }

  /* The actions of one protected phase, up to the first that aborts it. */
  function RunPhase(max: nat, s: State, actions: seq<Action>): (r: State)
    requires InRange(actions, |s.cells|)
    ensures |r.cells| == |s.cells|
    decreases |actions|
  {
    if actions == [] then s
    else
      var (s1, aborts) := Do(max, s, actions[0]);
      if aborts then s1 else RunPhase(max, s1, actions[1..])
  }

  /* UnityPointer_UndoAllSets: the saved values go back, last saved first. */
  function Undo(cells: seq<Value>, store: seq<Saved>): (r: seq<Value>)
    ensures |r| == |cells|
    decreases |store|
  {
    if store == [] then cells
    else
      var last := store[|store| - 1];
      Undo(if last.loc < |cells| then cells[last.loc := last.oldValue] else cells, store[..|store| - 1])
  }

  /* Both protected phases of UnityTestRunner, from an empty store and clear flags. */
  function RunPhases(max: nat, cells: seq<Value>, t: Test): (r: State)
    requires TestInRange(t, |cells|)
    ensures |r.cells| == |cells|
  {
    var s1 := RunPhase(max, State(cells, [], false, false), t.setup + t.body);
    RunPhase(max, s1, t.teardown)
  }

  /* The memory after a whole test. */
  function CellsAfter(max: nat, dryRun: bool, cells: seq<Value>, t: Test): (r: seq<Value>)
    requires TestInRange(t, |cells|)
    ensures |r| == |cells|
  {
    if dryRun then cells
    else
      var s := RunPhases(max, cells, t);
      Undo(s.cells, s.store)
  }

  //////////////////////////////////////////////////////////////////////////////
  // Test isolation
  //////////////////////////////////////////////////////////////////////////////

  /* The oldest value saved for a location. */
  function FirstSaved(store: seq<Saved>, l: nat): Option<Value>
    decreases |store|
  {
    if store == [] then None
    else
      var last := store[|store| - 1];
      var earlier := FirstSaved(store[..|store| - 1], l);
      if earlier.Some? then earlier
      else if last.loc == l then Some(last.oldValue)
      else None
  }

  /* Undoing in LIFO order leaves, in every location, the oldest value saved for it. */
  lemma {:induction false} UndoRestoresFirst(cells: seq<Value>, store: seq<Saved>, l: nat)
    requires l < |cells|
    ensures Undo(cells, store)[l] == match FirstSaved(store, l) case Some(v) => v case None => cells[l]
    decreases |store|
  {
    if store != [] {
      var last := store[|store| - 1];
      var before := if last.loc < |cells| then cells[last.loc := last.oldValue] else cells;
      UndoRestoresFirst(before, store[..|store| - 1], l);
    }
  }

  /* The value of l just before its first accepted UnityPointer_Set in a phase, read off the
     execution without looking at the store's contents. */
  function Original(max: nat, s: State, actions: seq<Action>, l: nat): Option<Value>
    requires InRange(actions, |s.cells|) && l < |s.cells|
    decreases |actions|
  {
    if actions == [] then None
    else if actions[0].SetPointer? && actions[0].loc == l && Accepts(max, s) then Some(s.cells[l])
    else
      var (s1, aborts) := Do(max, s, actions[0]);
      if aborts then None else Original(max, s1, actions[1..], l)
  }

  function OriginalInTest(max: nat, cells: seq<Value>, t: Test, l: nat): Option<Value>
    requires TestInRange(t, |cells|) && l < |cells|
  {
    var s0 := State(cells, [], false, false);
    var early := Original(max, s0, t.setup + t.body, l);
    if early.Some? then early else Original(max, RunPhase(max, s0, t.setup + t.body), t.teardown, l)
  }

  lemma FirstSavedSnoc(store: seq<Saved>, e: Saved, l: nat)
    ensures FirstSaved(store + [e], l)
         == if FirstSaved(store, l).Some? then FirstSaved(store, l)
            else if e.loc == l then Some(e.oldValue) else None
  {
    assert (store + [e])[..|store|] == store;
  }

  lemma {:induction false} SavedIsOriginal(max: nat, s: State, actions: seq<Action>, l: nat)
    requires InRange(actions, |s.cells|) && l < |s.cells|
    ensures FirstSaved(RunPhase(max, s, actions).store, l)
         == if FirstSaved(s.store, l).Some? then FirstSaved(s.store, l) else Original(max, s, actions, l)
    decreases |actions|
  {
    if actions != [] {
      var a := actions[0];
      var (s1, aborts) := Do(max, s, a);
      if a.SetPointer? && Accepts(max, s) {
        FirstSavedSnoc(s.store, Saved(a.loc, s.cells[a.loc]), l);
      }
      if !aborts {
        SavedIsOriginal(max, s1, actions[1..], l);
      }
    }
  }

  /* Test isolation, for any capacity and whichever phase aborts: a location that was
     accepted by UnityPointer_Set at least once holds, after the test, the value it had
     before the first of these calls, however often it was set or overwritten since. Any
     other location is as the test left it. */
  lemma Isolation(max: nat, cells: seq<Value>, t: Test, l: nat)
    requires TestInRange(t, |cells|) && l < |cells|
    ensures CellsAfter(max, false, cells, t)[l]
         == match OriginalInTest(max, cells, t, l)
            case Some(v) => v
            case None => RunPhases(max, cells, t).cells[l]
  {
    var s0 := State(cells, [], false, false);
    var s1 := RunPhase(max, s0, t.setup + t.body);
    SavedIsOriginal(max, s0, t.setup + t.body, l);
    SavedIsOriginal(max, s1, t.teardown, l);
    var s := RunPhases(max, cells, t);
    UndoRestoresFirst(s.cells, s.store, l);
  }

  /* The first UnityPointer_Set on l that a phase reaches: the value it finds there, and
     whether the store has room for it. */
  datatype Attempt = Attempt(found: Value, accepted: bool)

  function FirstAttempt(max: nat, s: State, actions: seq<Action>, l: nat): Option<Attempt>
    requires InRange(actions, |s.cells|) && l < |s.cells|
    decreases |actions|
  {
    if actions == [] then None
    else if actions[0].SetPointer? && actions[0].loc == l then Some(Attempt(s.cells[l], Accepts(max, s)))
    else
      var (s1, aborts) := Do(max, s, actions[0]);
      if aborts then None else FirstAttempt(max, s1, actions[1..], l)
  }

  function FirstAttemptInTest(max: nat, cells: seq<Value>, t: Test, l: nat): Option<Attempt>
    requires TestInRange(t, |cells|) && l < |cells|
  {
    var s0 := State(cells, [], false, false);
    var early := FirstAttempt(max, s0, t.setup + t.body, l);
    if early.Some? then early else FirstAttempt(max, RunPhase(max, s0, t.setup + t.body), t.teardown, l)
  }

  lemma {:induction false} AttemptDecides(max: nat, s: State, actions: seq<Action>, l: nat)
    requires InRange(actions, |s.cells|) && l < |s.cells|
    ensures match FirstAttempt(max, s, actions, l)
            case None => Original(max, s, actions, l) == None
            case Some(a) => if a.accepted then Original(max, s, actions, l) == Some(a.found)
                            else Original(max, s, actions, l) == None && |RunPhase(max, s, actions).store| >= max
    decreases |actions|
  {
    if actions != [] && !(actions[0].SetPointer? && actions[0].loc == l) {
      var (s1, aborts) := Do(max, s, actions[0]);
      if !aborts {
        AttemptDecides(max, s1, actions[1..], l);
      }
    }
  }

  lemma {:induction false} FullStoreAcceptsNothing(max: nat, s: State, actions: seq<Action>, l: nat)
    requires InRange(actions, |s.cells|) && l < |s.cells| && |s.store| >= max
    ensures Original(max, s, actions, l) == None
    decreases |actions|
  {
    if actions != [] {
      var (s1, aborts) := Do(max, s, actions[0]);
      if !aborts {
        FullStoreAcceptsNothing(max, s1, actions[1..], l);
      }
    }
  }

  /* Exactly when a location passed to UnityPointer_Set is restored: if the store had room at
     the first call for it; if not, the location is never recorded and keeps whatever the rest
     of the test leaves in it. */
  lemma RestoredIffRoom(max: nat, cells: seq<Value>, t: Test, l: nat)
    requires TestInRange(t, |cells|) && l < |cells|
    requires FirstAttemptInTest(max, cells, t, l).Some?
    ensures var a := FirstAttemptInTest(max, cells, t, l).value;
            CellsAfter(max, false, cells, t)[l] == if a.accepted then a.found else RunPhases(max, cells, t).cells[l]
  {
    var s0 := State(cells, [], false, false);
    var s1 := RunPhase(max, s0, t.setup + t.body);
    AttemptDecides(max, s0, t.setup + t.body, l);
    AttemptDecides(max, s1, t.teardown, l);
    if |s1.store| >= max {
      FullStoreAcceptsNothing(max, s1, t.teardown, l);
    }
    Isolation(max, cells, t, l);
  }

  ghost predicate NoAssigns(actions: seq<Action>) {
    forall k :: 0 <= k < |actions| ==> !actions[k].Assign?
  }

  lemma {:induction false} OnlySetsChange(max: nat, s: State, actions: seq<Action>, l: nat)
    requires InRange(actions, |s.cells|) && l < |s.cells| && NoAssigns(actions)
    ensures match Original(max, s, actions, l)
            case Some(v) => v == s.cells[l]
            case None => RunPhase(max, s, actions).cells[l] == s.cells[l]
    decreases |actions|
  {
    if actions != [] {
      var (s1, aborts) := Do(max, s, actions[0]);
      if !aborts {
        OnlySetsChange(max, s1, actions[1..], l);
      }
    }
  }

  /* A test that changes memory through UnityPointer_Set only leaves all memory as it was,
     with any capacity, on every abort path, including "Too many pointers set". */
  lemma SetsOnlyLeaveNoTrace(max: nat, dryRun: bool, cells: seq<Value>, t: Test)
    requires TestInRange(t, |cells|)
    requires NoAssigns(t.setup) && NoAssigns(t.body) && NoAssigns(t.teardown)
    ensures CellsAfter(max, dryRun, cells, t) == cells
  {
    if !dryRun {
      var s0 := State(cells, [], false, false);
      var s1 := RunPhase(max, s0, t.setup + t.body);
      forall l | 0 <= l < |cells|
        ensures CellsAfter(max, dryRun, cells, t)[l] == cells[l]
      {
        Isolation(max, cells, t, l);
        OnlySetsChange(max, s0, t.setup + t.body, l);
        OnlySetsChange(max, s1, t.teardown, l);
      }
    }
  }

  /* n calls for location 0, then one for location 1. */
  function SetsThenOne(n: nat): seq<Action>
    decreases n
  {
    if n == 0 then [SetPointer(1, 1)] else [SetPointer(0, 1)] + SetsThenOne(n - 1)
  }

  lemma {:induction false} OneAfterSets(max: nat, s: State, n: nat)
    requires |s.cells| == 2 && |s.store| + n == max
    ensures InRange(SetsThenOne(n), 2)
    ensures FirstAttempt(max, s, SetsThenOne(n), 1) == Some(Attempt(s.cells[1], false))
    decreases n
  {
    var actions := SetsThenOne(n);
    if n != 0 {
      var (s1, _) := Do(max, s, actions[0]);
      assert actions[1..] == SetsThenOne(n - 1);
      OneAfterSets(max, s1, n - 1);
    }
  }

  /* Being passed to UnityPointer_Set is not enough, whatever UNITY_MAX_POINTERS is: one call
     more than that is rejected, and what teardown then assigns to its location stays there. */
  lemma RejectedSetNotRestored(max: nat, cells: seq<Value>)
    requires |cells| == 2
    ensures var t := Test([], SetsThenOne(max), [Assign(1, cells[1] + 1)]);
            && TestInRange(t, 2)
            && FirstAttemptInTest(max, cells, t, 1) == Some(Attempt(cells[1], false))
            && CellsAfter(max, false, cells, t)[1] == cells[1] + 1
  {
    var t := Test([], SetsThenOne(max), [Assign(1, cells[1] + 1)]);
    var s0 := State(cells, [], false, false);
    OneAfterSets(max, s0, max);
    assert t.setup + t.body == SetsThenOne(max);
    RestoredIffRoom(max, cells, t, 1);
    AssignOnly(max, RunPhase(max, s0, SetsThenOne(max)), 1, cells[1] + 1);
  }

  lemma AssignOnly(max: nat, s: State, l: nat, value: Value)
    requires l < |s.cells|
    ensures InRange([Assign(l, value)], |s.cells|)
    ensures RunPhase(max, s, [Assign(l, value)]).cells == s.cells[l := value]
  {
    assert [Assign(l, value)][1..] == [];
  }

  //////////////////////////////////////////////////////////////////////////////
  // Verdicts and counters
  //////////////////////////////////////////////////////////////////////////////

  datatype Verdict = Passed | Failed | Ignored

  function VerdictOf(s: State): Verdict {
    if s.ignored then Ignored else if s.failed then Failed else Passed
  }

  lemma {:induction false} FlagsInPhase(max: nat, s: State, actions: seq<Action>)
    requires InRange(actions, |s.cells|) && !(s.failed && s.ignored)
    ensures var r := RunPhase(max, s, actions);
            && !(r.failed && r.ignored)
            && (s.failed || s.ignored ==> r.failed == s.failed && r.ignored == s.ignored)
    decreases |actions|
  {
    if actions != [] {
      var (s1, aborts) := Do(max, s, actions[0]);
      if !aborts {
        FlagsInPhase(max, s1, actions[1..]);
      }
    }
  }

  function TestVerdict(max: nat, dryRun: bool, cells: seq<Value>, t: Test): Verdict
    requires TestInRange(t, |cells|)
  {
    if dryRun then Passed else VerdictOf(RunPhases(max, cells, t))
  }

  /* A test is never both failed and ignored, and a verdict reached in setup or body is not
     changed by anything in teardown. */
  lemma FirstVerdictStands(max: nat, cells: seq<Value>, t: Test)
    requires TestInRange(t, |cells|)
    ensures var s := RunPhases(max, cells, t); !(s.failed && s.ignored)
    ensures var early := VerdictOf(RunPhase(max, State(cells, [], false, false), t.setup + t.body));
            early != Passed ==> TestVerdict(max, false, cells, t) == early
  {
    var s0 := State(cells, [], false, false);
    FlagsInPhase(max, s0, t.setup + t.body);
    FlagsInPhase(max, RunPhase(max, s0, t.setup + t.body), t.teardown);
  }

  //////////////////////////////////////////////////////////////////////////////
  // What decides a verdict
  //////////////////////////////////////////////////////////////////////////////

  /* Whether an action ends its phase, with no room left in the store or not, and with a
     verdict reached in an earlier phase or not. */
  predicate Stops(a: Action, full: bool, decided: bool) {
    match a
    case SetPointer(_, _) => full
    case Assign(_, _) => false
    case Check(holds) => !holds
    case Assert(holds) => decided || !holds
    case Ignore => true
    case Pass => true
  }

  /* The verdict that an action gives to a test that has none. */
  function Given(a: Action, full: bool): Option<Verdict> {
    match a
    case SetPointer(_, _) => if full then Some(Failed) else None
    case Assign(_, _) => None
    case Check(holds) => if holds then None else Some(Failed)
    case Assert(holds) => if holds then None else Some(Failed)
    case Ignore => Some(Ignored)
    case Pass => None
  }

  function Sets(a: Action): nat {
    if a.SetPointer? then 1 else 0
  }

  function SetCount(actions: seq<Action>): nat
    decreases |actions|
  {
    if actions == [] then 0 else Sets(actions[0]) + SetCount(actions[1..])
  }

  /* How many of these actions of a phase are executed, if `used` pairs were stored before it. */
  function ExecutedCount(max: nat, used: nat, decided: bool, actions: seq<Action>): (n: nat)
    ensures n <= |actions|
    decreases |actions|
  {
    if actions == [] then 0
    else if Stops(actions[0], used >= max, decided) then 1
    else 1 + ExecutedCount(max, used + Sets(actions[0]), decided, actions[1..])
  }

  /* Action k ends the phase, if the phase comes that far. */
  predicate StopsAt(max: nat, used: nat, decided: bool, actions: seq<Action>, k: nat)
    requires k < |actions|
  {
    Stops(actions[k], used + SetCount(actions[..k]) >= max, decided)
  }

  lemma SetCountCons(actions: seq<Action>, k: nat)
    requires k + 1 <= |actions|
    ensures SetCount(actions[..k + 1]) == Sets(actions[0]) + SetCount(actions[1..][..k])
  {
    assert actions[..k + 1][1..] == actions[1..][..k];
  }

  /* The executed actions are all up to the first that ends the phase, and that one. */
  lemma {:induction false} ExecutedUpToStop(max: nat, used: nat, decided: bool, actions: seq<Action>, k: nat)
    requires k < |actions|
    ensures var n := ExecutedCount(max, used, decided, actions);
            && (k + 1 < n ==> !StopsAt(max, used, decided, actions, k))
            && (k + 1 == n < |actions| ==> StopsAt(max, used, decided, actions, k))
            && n > 0
    decreases |actions|
  {
    if k > 0 {
      ExecutedUpToStop(max, used + Sets(actions[0]), decided, actions[1..], k - 1);
      SetCountCons(actions, k - 1);
    } else {
      assert actions[..0] == [];
    }
  }

  /* The first verdict that these actions give, each to a test that has none yet. */
  function FirstGiven(max: nat, used: nat, actions: seq<Action>): Option<Verdict>
    decreases |actions|
  {
    if actions == [] then None
    else
      var given := Given(actions[0], used >= max);
      if given.Some? then given else FirstGiven(max, used + Sets(actions[0]), actions[1..])
  }

  /* What action k gives. */
  function GivenAt(max: nat, used: nat, actions: seq<Action>, k: nat): Option<Verdict>
    requires k < |actions|
  {
    Given(actions[k], used + SetCount(actions[..k]) >= max)
  }

  /* The first verdict is some action's, and no action before that gives one. */
  lemma {:induction false} FirstGivenIsFirst(max: nat, used: nat, actions: seq<Action>) returns (k: nat)
    ensures k <= |actions|
    ensures forall j: nat :: j < k ==> GivenAt(max, used, actions, j) == None
    ensures if k == |actions| then FirstGiven(max, used, actions) == None
            else
              var given := GivenAt(max, used, actions, k);
              given.Some? && FirstGiven(max, used, actions) == given
    decreases |actions|
  {
    if actions == [] {
      return 0;
    }
    assert actions[..0] == [];
    if Given(actions[0], used >= max).Some? {
      return 0;
    }
    var m := FirstGivenIsFirst(max, used + Sets(actions[0]), actions[1..]);
    k := m + 1;
    forall j: nat | j < |actions| && 0 < j
      ensures GivenAt(max, used, actions, j) == GivenAt(max, used + Sets(actions[0]), actions[1..], j - 1)
    {
      SetCountCons(actions, j - 1);
    }
  }

  lemma {:induction false} FirstGivenConcat(max: nat, used: nat, a: seq<Action>, b: seq<Action>)
    ensures FirstGiven(max, used, a + b)
         == if FirstGiven(max, used, a).Some? then FirstGiven(max, used, a)
            else FirstGiven(max, used + SetCount(a), b)
    decreases |a|
  {
    if a == [] {
      assert a + b == b;
    } else {
      assert (a + b)[1..] == a[1..] + b && (a + b)[0] == a[0];
      FirstGivenConcat(max, used + Sets(a[0]), a[1..], b);
    }
  }

  /* Beyond a full store it does not matter how many sets there were. */
  lemma {:induction false} FullIsFull(max: nat, used: nat, also: nat, actions: seq<Action>)
    requires used == also || (used >= max && also >= max)
    ensures FirstGiven(max, used, actions) == FirstGiven(max, also, actions)
    decreases |actions|
  {
    if actions != [] {
      FullIsFull(max, used + Sets(actions[0]), also + Sets(actions[0]), actions[1..]);
    }
  }

  function Least(x: nat, y: nat): nat {
    if x < y then x else y
  }

  function VerdictOr(given: Option<Verdict>, v: Verdict): Verdict {
    if given.Some? then given.value else v
  }

  lemma DoGives(max: nat, s: State, a: Action)
    requires InRange([a], |s.cells|) && |s.store| <= max && !(s.failed && s.ignored)
    ensures var (r, aborts) := Do(max, s, a);
            && (aborts <==> Stops(a, |s.store| >= max, VerdictOf(s) != Passed))
            && !(r.failed && r.ignored)
            && VerdictOf(r) == (if VerdictOf(s) != Passed then VerdictOf(s)
                                else VerdictOr(Given(a, |s.store| >= max), Passed))
            && |r.store| == Least(max, |s.store| + Sets(a))
            && |r.cells| == |s.cells|
  {
    assert [a][0] == a;
  }

  /* What a phase comes to: the verdict is the earlier one or else the first that the executed
     actions give, and every accepted set is stored. */
  lemma {:induction false} PhaseVerdict(max: nat, s: State, actions: seq<Action>)
    requires InRange(actions, |s.cells|) && |s.store| <= max && !(s.failed && s.ignored)
    ensures var decided := VerdictOf(s) != Passed;
            var done := actions[..ExecutedCount(max, |s.store|, decided, actions)];
            var r := RunPhase(max, s, actions);
            && !(r.failed && r.ignored)
            && VerdictOf(r) == (if decided then VerdictOf(s) else VerdictOr(FirstGiven(max, |s.store|, done), Passed))
            && |r.store| == Least(max, |s.store| + SetCount(done))
    decreases |actions|
  {
    if actions != [] {
      hide Do, Stops, Given;
      assert [actions[0]][0] == actions[0];
      DoGives(max, s, actions[0]);
      var (s1, aborts) := Do(max, s, actions[0]);
      var done := actions[..ExecutedCount(max, |s.store|, VerdictOf(s) != Passed, actions)];
      GivenStops(actions[0], |s.store| >= max, VerdictOf(s) != Passed);
      if aborts {
        assert done == [actions[0]] && done[1..] == [];
      } else {
        PhaseVerdict(max, s1, actions[1..]);
        assert done[1..] == actions[1..][..|done| - 1];
      }
    }
  }

  lemma GivenStops(a: Action, full: bool, decided: bool)
    ensures Given(a, full).Some? ==> Stops(a, full, decided)
  {
  }

  /* The value that these actions leave in l, or None if none writes there. */
  function LastWritten(max: nat, used: nat, actions: seq<Action>, l: nat): Option<Value>
    decreases |actions|
  {
    if actions == [] then None
    else
      var later := LastWritten(max, used + Sets(actions[0]), actions[1..], l);
      if later.Some? then later else Writes(actions[0], used >= max, l)
  }

  /* What one action writes into l. */
  function Writes(a: Action, full: bool, l: nat): Option<Value> {
    match a
    case SetPointer(loc, value) => if loc == l && !full then Some(value) else None
    case Assign(loc, value) => if loc == l then Some(value) else None
    case _ => None
  }

  lemma DoWrites(max: nat, s: State, a: Action, l: nat)
    requires InRange([a], |s.cells|) && l < |s.cells|
    ensures var (r, _) := Do(max, s, a);
            |r.cells| == |s.cells|
            && r.cells[l] == match Writes(a, |s.store| >= max, l) case Some(v) => v case None => s.cells[l]
  {
    assert [a][0] == a;
  }

  /* After a phase every location holds what an executed action last wrote to it. */
  lemma {:induction false} PhaseWrites(max: nat, s: State, actions: seq<Action>, l: nat)
    requires InRange(actions, |s.cells|) && |s.store| <= max && !(s.failed && s.ignored) && l < |s.cells|
    ensures var done := actions[..ExecutedCount(max, |s.store|, VerdictOf(s) != Passed, actions)];
            RunPhase(max, s, actions).cells[l]
            == match LastWritten(max, |s.store|, done, l) case Some(v) => v case None => s.cells[l]
    decreases |actions|
  {
    if actions != [] {
      hide Do, Stops, Writes;
      assert [actions[0]][0] == actions[0];
      DoGives(max, s, actions[0]);
      DoWrites(max, s, actions[0], l);
      GivenStops(actions[0], |s.store| >= max, VerdictOf(s) != Passed);
      var (s1, aborts) := Do(max, s, actions[0]);
      var done := actions[..ExecutedCount(max, |s.store|, VerdictOf(s) != Passed, actions)];
      if aborts {
        assert done == [actions[0]] && done[1..] == [];
      } else {
        PhaseWrites(max, s1, actions[1..], l);
        assert done[1..] == actions[1..][..|done| - 1];
      }
    }
  }

  /* Everything a test executes: of setup and body up to the first action that ends them, and
     then of teardown; nothing in a dry run. */
  function ExecutedInTest(max: nat, dryRun: bool, t: Test): seq<Action> {
    if dryRun then []
    else
      var first := t.setup + t.body;
      var done := first[..ExecutedCount(max, 0, false, first)];
      done + t.teardown[..ExecutedCount(max, Least(max, SetCount(done)), FirstGiven(max, 0, done).Some?, t.teardown)]
  }

  /* The verdict of a test is the first that its executed actions give: it is failed by a
     condition or an assertion that does not hold or by a UnityPointer_Set without room, and
     ignored by a TEST_IGNORE. It passes exactly when there is none of these. */
  lemma VerdictIsFirstGiven(max: nat, dryRun: bool, cells: seq<Value>, t: Test)
    requires TestInRange(t, |cells|)
    ensures TestVerdict(max, dryRun, cells, t) == VerdictOr(FirstGiven(max, 0, ExecutedInTest(max, dryRun, t)), Passed)
  {
    if !dryRun {
      hide RunPhase, SetCount, ExecutedCount, FirstGiven;
      var s0, first := State(cells, [], false, false), t.setup + t.body;
      var s1 := RunPhase(max, s0, first);
      var done := first[..ExecutedCount(max, 0, false, first)];
      PhaseVerdict(max, s0, first);
      PhaseVerdict(max, s1, t.teardown);
      GivenNothing(done, max);
      var rest := t.teardown[..ExecutedCount(max, |s1.store|, VerdictOf(s1) != Passed, t.teardown)];
      FirstGivenConcat(max, 0, done, rest);
      FullIsFull(max, |s1.store|, SetCount(done), rest);
    }
  }

  /* The executed action that decides a test, if k is less than their number: the first of
     them that is a condition or an assertion that does not hold, a UnityPointer_Set beyond
     the capacity, or a TEST_IGNORE. The test is ignored if it is the last of these, failed if
     it is another, and passed if there is none. */
  lemma VerdictDecidedBy(max: nat, dryRun: bool, cells: seq<Value>, t: Test) returns (k: nat)
    requires TestInRange(t, |cells|)
    ensures var done := ExecutedInTest(max, dryRun, t);
            var v := TestVerdict(max, dryRun, cells, t);
            && k <= |done|
            && (forall j :: 0 <= j < k ==> !Decides(max, done, j))
            && (if k == |done| then v == Passed
                else Decides(max, done, k) && v == if done[k] == Ignore then Ignored else Failed)
  {
    hide Given, FirstGiven, TestVerdict, ExecutedInTest;
    VerdictIsFirstGiven(max, dryRun, cells, t);
    var done := ExecutedInTest(max, dryRun, t);
    k := FirstGivenIsFirst(max, 0, done);
    forall j | 0 <= j < |done|
      ensures Decides(max, done, j) <==> GivenAt(max, 0, done, j).Some?
    {
      DecidesGives(max, done, j);
    }
    if k < |done| {
      DecidesGives(max, done, k);
    }
  }

  predicate Decides(max: nat, done: seq<Action>, k: nat)
    requires k < |done|
  {
    || (done[k].Check? && !done[k].holds)
    || (done[k].Assert? && !done[k].holds)
    || (done[k].SetPointer? && SetCount(done[..k]) >= max)
    || done[k].Ignore?
  }

  lemma DecidesGives(max: nat, done: seq<Action>, k: nat)
    requires k < |done|
    ensures Decides(max, done, k) <==> GivenAt(max, 0, done, k).Some?
    ensures Decides(max, done, k) ==>
              GivenAt(max, 0, done, k) == Some(if done[k] == Ignore then Ignored else Failed)
  {
  }

  lemma GivenNothing(done: seq<Action>, max: nat)
    ensures FirstGiven(max, 0, done) != Some(Passed)
  {
    var k := FirstGivenIsFirst(max, 0, done);
  }

  /* The counters of struct UNITY_STORAGE_T, of a type with `limit` values. */
  datatype Counters = Counters(numberOfTests: nat, testFailures: nat, testIgnores: nat)

  const ZEROED := Counters(0, 0, 0)  // UnityBegin

  function Bump(x: nat, limit: nat): nat
    requires limit > 0
  {
    if x + 1 == limit then 0 else x + 1
  }

  /* UnityTestRunner's and UnityConcludeFixtureTest's counting of one selected test. */
  function CountTest(k: Counters, v: Verdict, limit: nat): Counters
    requires limit > 0
  {
    var k := k.(numberOfTests := Bump(k.numberOfTests, limit));
    match v
    case Ignored => k.(testIgnores := Bump(k.testIgnores, limit))
    case Failed => k.(testFailures := Bump(k.testFailures, limit))
    case Passed => k
  }

  /* UnityIgnoreTest's. */
  function CountIgnored(k: Counters, limit: nat): Counters
    requires limit > 0
  {
    k.(numberOfTests := Bump(k.numberOfTests, limit), testIgnores := Bump(k.testIgnores, limit))
  }

  /* One call from a group runner, with the outcome of the name and group filters. */
  datatype Item = TestCall(test: Test, selected: bool) | IgnoreCall(selected: bool)

  datatype Suite = Suite(cells: seq<Value>, counters: Counters)

  ghost predicate ItemsInRange(items: seq<Item>, n: nat) {
    forall k :: 0 <= k < |items| && items[k].TestCall? ==> TestInRange(items[k].test, n)
  }

  function RunItem(max: nat, dryRun: bool, limit: nat, s: Suite, item: Item): (r: Suite)
    requires limit > 0 && (item.TestCall? ==> TestInRange(item.test, |s.cells|))
    ensures |r.cells| == |s.cells|
  {
    if !item.selected then s
    else
      match item
      case TestCall(t, _) =>
        Suite(CellsAfter(max, dryRun, s.cells, t),
              CountTest(s.counters, TestVerdict(max, dryRun, s.cells, t), limit))
      case IgnoreCall(_) => s.(counters := CountIgnored(s.counters, limit))
  }

  function RunItems(max: nat, dryRun: bool, limit: nat, s: Suite, items: seq<Item>): (r: Suite)
    requires limit > 0 && ItemsInRange(items, |s.cells|)
    ensures |r.cells| == |s.cells|
    decreases |items|
  {
    if items == [] then s
    else RunItem(max, dryRun, limit, RunItems(max, dryRun, limit, s, items[..|items| - 1]), items[|items| - 1])
  }

  /* The verdict each selected call comes to, in order. */
  function Verdicts(max: nat, dryRun: bool, limit: nat, s: Suite, items: seq<Item>): seq<Verdict>
    requires limit > 0 && ItemsInRange(items, |s.cells|)
    decreases |items|
  {
    if items == [] then []
    else
      var init, item := items[..|items| - 1], items[|items| - 1];
      Verdicts(max, dryRun, limit, s, init)
      + if !item.selected then []
        else if item.IgnoreCall? then [Ignored]
        else [TestVerdict(max, dryRun, RunItems(max, dryRun, limit, s, init).cells, item.test)]
  }

  function SelectedCount(items: seq<Item>): nat {
    if items == [] then 0 else SelectedCount(items[..|items| - 1]) + if items[|items| - 1].selected then 1 else 0
  }

  function Count(vs: seq<Verdict>, v: Verdict): nat {
    if vs == [] then 0 else Count(vs[..|vs| - 1], v) + if vs[|vs| - 1] == v then 1 else 0
  }

  lemma CountSnoc(vs: seq<Verdict>, v: Verdict, w: Verdict)
    ensures Count(vs + [v], w) == Count(vs, w) + if v == w then 1 else 0
  {
    assert (vs + [v])[..|vs|] == vs;
  }

  lemma BumpMod(x: nat, limit: nat)
    requires limit > 0
    ensures Bump(x % limit, limit) == (x + 1) % limit
  {
    var q, r := x / limit, x % limit;
    assert x == q * limit + r;
    if r + 1 < limit {
      DivModUnique(x + 1, q, r + 1, limit);
    } else {
      assert (q + 1) * limit == q * limit + limit;
      DivModUnique(x + 1, q + 1, 0, limit);
    }
  }

  /* Run accounting after UnityBegin, over any run of tests and ignored tests: the counters
     are the numbers of selected calls, of failed and of ignored ones (modulo the counter
     width), and every selected call is exactly one of passed, failed or ignored. */
  lemma {:induction false} RunAccounting(max: nat, dryRun: bool, limit: nat, cells: seq<Value>, items: seq<Item>)
    requires limit > 0 && ItemsInRange(items, |cells|)
    ensures var s := Suite(cells, ZEROED);
            var k := RunItems(max, dryRun, limit, s, items).counters;
            var vs := Verdicts(max, dryRun, limit, s, items);
            && k.numberOfTests == SelectedCount(items) % limit
            && k.testFailures == Count(vs, Failed) % limit
            && k.testIgnores == Count(vs, Ignored) % limit
            && Count(vs, Passed) + Count(vs, Failed) + Count(vs, Ignored) == SelectedCount(items)
    decreases |items|
  {
    hide CellsAfter, TestVerdict, Bump, Count, TestInRange;
    var s := Suite(cells, ZEROED);
    if items == [] {
      NoneCounted();
      assert 0 % limit == 0;
    } else {
      var init, item := items[..|items| - 1], items[|items| - 1];
      RunAccounting(max, dryRun, limit, cells, init);
      var vs := Verdicts(max, dryRun, limit, s, init);
      BumpMod(SelectedCount(init), limit);
      BumpMod(Count(vs, Failed), limit);
      BumpMod(Count(vs, Ignored), limit);
      var v := if item.IgnoreCall? then Ignored
               else TestVerdict(max, dryRun, RunItems(max, dryRun, limit, s, init).cells, item.test);
      CountSnoc(vs, v, Passed);
      CountSnoc(vs, v, Failed);
      CountSnoc(vs, v, Ignored);
      assert vs + [] == vs;
    }
  }

  lemma NoneCounted()
    ensures Count([], Passed) == Count([], Failed) == Count([], Ignored) == 0
  {
  }
}
