/**
 The fixture of `libs/unity/unity_fixture.c` as its functions run it: `pointer_store` and
 `pointer_index`, the counters and flags of `struct UNITY_STORAGE_T`, and the memory of the
 program under test, all updated in place. Each method is proved to do what UnityTestRun
 says; the calls that the code under test makes are `Execute`d one by one.
 */
module UnityFixture {
  import opened Sequences
  import opened Wrappers
  import opened UnityOptions
  import opened UnityTestRun

  /* selected(), where strstr says whether the filter occurs in the name. */
  predicate Selected(filter: Option<string>, select: Option<string>, name: string) {
    || (filter.None? && select.None?)
    || (filter.Some? && Occurs(name, filter.value))
    || (select.Some? && name == select.value)
  }

  /* One call that a group runner makes: RUN_TEST_CASE on a test, or on one declared with
     IGNORE_TEST. */
  datatype Call = RunTest(test: Test, group: string, name: string) | RunIgnored(group: string, name: string)

  /* The call with the outcome of the filters. */
  function ItemOf(call: Call, o: Options): Item {
    var selected := Selected(o.nameFilter, o.name, call.name) && Selected(o.groupFilter, o.group, call.group);
    match call
    case RunTest(test, _, _) => TestCall(test, selected)
    case RunIgnored(_, _) => IgnoreCall(selected)
  }

  function ItemsOf(calls: seq<Call>, o: Options): (items: seq<Item>)
    ensures |items| == |calls|
  {
    seq(|calls|, k requires 0 <= k < |calls| => ItemOf(calls[k], o))
  }

  //////////////////////////////////////////////////////////////////////////////
  // Which calls are selected
  //////////////////////////////////////////////////////////////////////////////

  /* What the two options for names, or the two for groups, say about one: without either it
     passes, and with any it passes if it contains the filter or if it is the exact one. */
  ghost predicate Passes(filter: Option<string>, exact: Option<string>, name: string) {
    || (filter == None && exact == None)
    || (filter.Some? && exists a, b :: Splits(name, a, filter.value, b))
    || exact == Some(name)
  }

  /* A call is selected exactly if its name passes the options for names and its group those
     for groups. */
  lemma SelectedIff(call: Call, o: Options)
    ensures ItemOf(call, o).selected
       <==> Passes(o.nameFilter, o.name, call.name) && Passes(o.groupFilter, o.group, call.group)
  {
    hide Occurs;
    if o.nameFilter.Some? {
      OccursSplits(call.name, o.nameFilter.value);
    }
    if o.groupFilter.Some? {
      OccursSplits(call.group, o.groupFilter.value);
    }
  }

  /* Command lines: none, and one option each. */
  lemma SelectedByOption(call: Call, x: string)
    ensures ItemOf(call, Parsed(DEFAULTS, []).0).selected
    ensures ItemOf(call, Parsed(DEFAULTS, ["-N", x]).0).selected <==> call.name == x
    ensures ItemOf(call, Parsed(DEFAULTS, ["-G", x]).0).selected <==> call.group == x
    ensures ItemOf(call, Parsed(DEFAULTS, ["-n", x]).0).selected <==> exists a, b :: Splits(call.name, a, x, b)
    ensures ItemOf(call, Parsed(DEFAULTS, ["-g", x]).0).selected <==> exists a, b :: Splits(call.group, a, x, b)
  {
    hide Selected, ItemOf, Splits;
    OneOption("-N", x);
    OneOption("-G", x);
    OneOption("-n", x);
    OneOption("-g", x);
    SelectedIff(call, Parsed(DEFAULTS, []).0);
    SelectedIff(call, Parsed(DEFAULTS, ["-N", x]).0);
    SelectedIff(call, Parsed(DEFAULTS, ["-G", x]).0);
    SelectedIff(call, Parsed(DEFAULTS, ["-n", x]).0);
    SelectedIff(call, Parsed(DEFAULTS, ["-g", x]).0);
  }

  lemma OneOption(a: string, x: string)
    requires TakesName(a)
    ensures Parsed(DEFAULTS, [a, x]).0 == WithName(DEFAULTS, a, x)
  {
    assert [a, x][1..] == [x] && [x][1..] == [];
  }

  /* The calls of a run that are selected. */
  function Chosen(calls: seq<Call>, o: Options): (r: seq<Call>)
    decreases |calls|
  {
    if calls == [] then []
    else
      var m := |calls| - 1;
      Chosen(calls[..m], o) + if ItemOf(calls[m], o).selected then [calls[m]] else []
  }

  /* A run does just what its selected calls do, and counts them. */
  lemma {:induction false} OnlyChosenRun(max: nat, limit: nat, o: Options, s: Suite, calls: seq<Call>)
    requires limit > 0 && CallsInRange(calls, |s.cells|)
    ensures CallsInRange(Chosen(calls, o), |s.cells|)
    ensures ItemsInRange(ItemsOf(calls, o), |s.cells|) && ItemsInRange(ItemsOf(Chosen(calls, o), o), |s.cells|)
    ensures RunItems(max, o.dryRun, limit, s, ItemsOf(calls, o))
         == RunItems(max, o.dryRun, limit, s, ItemsOf(Chosen(calls, o), o))
    ensures SelectedCount(ItemsOf(calls, o)) == |Chosen(calls, o)|
    decreases |calls|
  {
    hide TestInRange, ItemOf, RunItem;
    if calls != [] {
      var m := |calls| - 1;
      OnlyChosenRun(max, limit, o, s, calls[..m]);
      var items, chosen := ItemsOf(calls, o), Chosen(calls[..m], o);
      assert items[..m] == ItemsOf(calls[..m], o);
      ItemTest(calls[m], o);
      if items[m].selected {
        var more := ItemsOf(chosen + [calls[m]], o);
        assert more[..|chosen|] == ItemsOf(chosen, o);
      } else {
        assert Chosen(calls, o) == chosen;
        UnselectedDoesNothing(max, o.dryRun, limit, RunItems(max, o.dryRun, limit, s, items[..m]), items[m]);
      }
    }
  }

  lemma ItemTest(call: Call, o: Options)
    ensures ItemOf(call, o).TestCall? ==> call.RunTest? && ItemOf(call, o).test == call.test
  {
    hide Selected;
  }

  lemma {:induction false} AllChosen(calls: seq<Call>, o: Options)
    requires forall k :: 0 <= k < |calls| ==> ItemOf(calls[k], o).selected
    ensures Chosen(calls, o) == calls
    decreases |calls|
  {
    hide ItemOf;
    if calls != [] {
      var m := |calls| - 1;
      AllChosen(calls[..m], o);
      assert calls == calls[..m] + [calls[m]];
    }
  }

  /* NumberOfTests after a run that started at UnityBegin is the number of calls whose name and
     group pass the options; without any of these it is the number of all calls. */
  lemma RunCountsChosen(max: nat, limit: nat, o: Options, cells: seq<Value>, calls: seq<Call>)
    requires limit > 0 && CallsInRange(calls, |cells|)
    ensures ItemsInRange(ItemsOf(calls, o), |cells|)
    ensures var n := RunItems(max, o.dryRun, limit, Suite(cells, ZEROED), ItemsOf(calls, o)).counters.numberOfTests;
            && n == |Chosen(calls, o)| % limit
            && (o.nameFilter == o.name == o.groupFilter == o.group == None ==> n == |calls| % limit)
  {
    hide RunItems, ItemsOf, Chosen, TestInRange, Verdicts, Count;
    OnlyChosenRun(max, limit, o, Suite(cells, ZEROED), calls);
    RunAccounting(max, o.dryRun, limit, cells, ItemsOf(calls, o));
    if o.nameFilter == o.name == o.groupFilter == o.group == None {
      AllChosen(calls, o);
    }
  }

  lemma UnselectedDoesNothing(max: nat, dryRun: bool, limit: nat, s: Suite, item: Item)
    requires limit > 0 && (item.TestCall? ==> TestInRange(item.test, |s.cells|))
    ensures !item.selected ==> RunItem(max, dryRun, limit, s, item) == s
  {
    hide TestInRange;
  }

  ghost predicate CallsInRange(calls: seq<Call>, n: nat) {
    forall k :: 0 <= k < |calls| && calls[k].RunTest? ==> TestInRange(calls[k].test, n)
  }

  class Fixture {
    var options: Options  // UnityFixture
    // Unity
    const counterLimit: nat
    var numberOfTests: nat
    var testFailures: nat
    var testIgnores: nat
    var currentTestFailed: bool
    var currentTestIgnored: bool
    // pointer_store and pointer_index
    const pointerStore: array<Saved>
    var pointerIndex: nat
    // the memory of the program under test
    const memory: array<Value>

    ghost predicate Valid()
      reads this, pointerStore
    {
      && pointerIndex <= pointerStore.Length
      && counterLimit > 0
      && forall k :: 0 <= k < pointerIndex ==> pointerStore[k].loc < memory.Length
    }

    ghost function Current(): State
      requires pointerIndex <= pointerStore.Length
      reads this, pointerStore, memory
    {
      State(memory[..], pointerStore[..pointerIndex], currentTestFailed, currentTestIgnored)
    }

    ghost function CountersNow(): Counters
      reads this
    {
      Counters(numberOfTests, testFailures, testIgnores)
    }

    constructor (maxPointers: nat, memorySize: nat, counterLimit: nat)
      requires counterLimit > 0
      ensures Valid() && fresh(pointerStore) && fresh(memory)
      ensures pointerStore.Length == maxPointers && memory.Length == memorySize
      ensures this.counterLimit == counterLimit && CountersNow() == ZEROED
      ensures !currentTestFailed && !currentTestIgnored
    {
      this.counterLimit := counterLimit;
      pointerStore := new Saved[maxPointers](_ => Saved(0, 0));
      memory := new Value[memorySize](_ => 0);
      pointerIndex := 0;
      options := DEFAULTS;
      numberOfTests, testFailures, testIgnores := 0, 0, 0;
      currentTestFailed, currentTestIgnored := false, false;
    }

    /* UnityBegin */
    method Begin()
      modifies `numberOfTests, `testFailures, `testIgnores, `currentTestFailed, `currentTestIgnored
      ensures CountersNow() == ZEROED && !currentTestFailed && !currentTestIgnored
    {
      numberOfTests, testFailures, testIgnores := 0, 0, 0;
      currentTestFailed, currentTestIgnored := false, false;
    }

    /* UnityGetCommandLineOptions; argv[0] is the program name. */
    method GetCommandLineOptions(argv: seq<string>) returns (result: int)
      modifies `options
      ensures (options, result) == Parsed(DEFAULTS, Arguments(argv))
    {
      options := DEFAULTS;
      if |argv| == 1 {
        return 0;
      }
      var i := 1;
      while i < |argv|
        invariant 1 <= i && (i <= |argv| || argv == [])
        invariant Parsed(options, if argv == [] then [] else argv[i..]) == Parsed(DEFAULTS, Arguments(argv))
        decreases |argv| - i
      {
        hide DigitPrefix;
        var a := argv[i];
        assert argv[i..][1..] == argv[i + 1..];
        if a == "-h" || a == "--help" {
          return 1;
        } else if a == "-v" {
          options := options.(verbose := true);
          i := i + 1;
        } else if a == "-s" {
          options := options.(silent := true);
          i := i + 1;
        } else if a == "-d" {
          options := options.(dryRun := true);
          i := i + 1;
        } else if TakesName(a) {
          i := i + 1;
          if i >= |argv| {
            return 1;
          }
          assert argv[i..][1..] == argv[i + 1..];
          options := WithName(options, a, argv[i]);
          i := i + 1;
        } else if a == "-r" {
          var count := 2;
          i := i + 1;
          if i < |argv| && StartsWithDigit(argv[i]) {
            assert argv[i..][1..] == argv[i + 1..];
            count := ReadRepeatCount(argv[i]);
            i := i + 1;
          }
          options := options.(repeatCount := count);
        } else {
          i := i + 1;
        }
      }
      result := 0;
    }

    method PointerInit()
      modifies `pointerIndex
      ensures pointerIndex == 0
    {
      pointerIndex := 0;
    }

    /* UnityFail: always aborts. */
    method UnityFail()
      modifies `currentTestFailed
      ensures currentTestFailed == (old(currentTestFailed) || !currentTestIgnored)
    {
      if currentTestFailed || currentTestIgnored {
        return;
      }
      currentTestFailed := true;
    }

    method PointerSet(pointer: nat, newValue: Value) returns (aborts: bool)
      requires Valid() && pointer < memory.Length
      modifies `currentTestFailed, `pointerIndex, pointerStore, memory
      ensures Valid()
      ensures InRange([SetPointer(pointer, newValue)], memory.Length)
      ensures (Current(), aborts) == Do(pointerStore.Length, old(Current()), SetPointer(pointer, newValue))
    {
      if pointerIndex >= pointerStore.Length {
        UnityFail();
        aborts := true;
      } else {
        ghost var store := pointerStore[..pointerIndex];
        var saved := Saved(pointer, memory[pointer]);
        pointerStore[pointerIndex] := saved;
        memory[pointer] := newValue;
        pointerIndex := pointerIndex + 1;
        assert pointerStore[..pointerIndex] == store + [saved];
        aborts := false;
      }
    }

    method PointerUndoAllSets()
      requires Valid()
      modifies `pointerIndex, memory
      ensures pointerIndex == 0
      ensures memory[..] == Undo(old(memory[..]), old(pointerStore[..pointerIndex]))
    {
      ghost var cells, store := memory[..], pointerStore[..pointerIndex];
      assert store[..pointerIndex] == store;
      while pointerIndex > 0
        invariant pointerIndex <= |store| <= pointerStore.Length && store == pointerStore[..|store|]
        invariant forall k :: 0 <= k < |store| ==> store[k].loc < memory.Length
        invariant Undo(memory[..], store[..pointerIndex]) == Undo(cells, store)
      {
        pointerIndex := pointerIndex - 1;
        assert store[..pointerIndex + 1][..pointerIndex] == store[..pointerIndex];
        memory[pointerStore[pointerIndex].loc] := pointerStore[pointerIndex].oldValue;
      }
    }

    /* One thing the code under test does. */
    method Execute(a: Action) returns (aborts: bool)
      requires Valid() && InRange([a], memory.Length)
      modifies `currentTestFailed, `currentTestIgnored, `pointerIndex, pointerStore, memory
      ensures Valid()
      ensures (Current(), aborts) == Do(pointerStore.Length, old(Current()), a)
    {
      assert [a][0] == a;
      match a
      case SetPointer(loc, value) =>
        aborts := PointerSet(loc, value);
      case Assign(loc, value) =>
        memory[loc] := value;
        aborts := false;
      case Check(holds) =>
        if !holds {
          UnityFail();
        }
        aborts := !holds;
      case Assert(holds) =>
        if currentTestFailed || currentTestIgnored {
          return true;
        }
        if !holds {
          UnityFail();
        }
        aborts := !holds;
      case Ignore =>
        if !currentTestFailed && !currentTestIgnored {
          currentTestIgnored := true;
        }
        aborts := true;
      case Pass =>
        aborts := true;
    }

    /* The code of a protected phase: `if (TEST_PROTECT()) { ... }`. */
    method Protect(actions: seq<Action>)
      requires Valid() && InRange(actions, memory.Length)
      modifies `currentTestFailed, `currentTestIgnored, `pointerIndex, pointerStore, memory
      ensures Valid()
      ensures Current() == RunPhase(pointerStore.Length, old(Current()), actions)
    {
      ghost var max, s := pointerStore.Length, Current();
      var k := 0;
      while k < |actions|
        invariant 0 <= k <= |actions| && Valid()
        invariant RunPhase(max, Current(), actions[k..]) == RunPhase(max, s, actions)
      {
        assert [actions[k]][0] == actions[k];
        var aborts := Execute(actions[k]);
        if aborts {
          return;
        }
        k := k + 1;
      }
    }

    method ConcludeFixtureTest()
      requires counterLimit > 0
      modifies `testIgnores, `testFailures, `currentTestFailed, `currentTestIgnored
      ensures !currentTestFailed && !currentTestIgnored
      ensures testIgnores == if old(currentTestIgnored) then Bump(old(testIgnores), counterLimit) else old(testIgnores)
      ensures testFailures == if !old(currentTestIgnored) && old(currentTestFailed)
                              then Bump(old(testFailures), counterLimit)
                              else old(testFailures)
    {
      if currentTestIgnored {
        testIgnores := Bump(testIgnores, counterLimit);
      } else if !currentTestFailed {
      } else {
        testFailures := Bump(testFailures, counterLimit);
      }
      currentTestFailed := false;
      currentTestIgnored := false;
    }

    predicate IsSelected(group: string, name: string)
      reads this
    {
      Selected(options.nameFilter, options.name, name) && Selected(options.groupFilter, options.group, group)
    }

    method TestRunner(t: Test, group: string, name: string)
      requires Valid() && TestInRange(t, memory.Length)
      requires !currentTestFailed && !currentTestIgnored
      modifies `numberOfTests, `testFailures, `testIgnores, `currentTestFailed, `currentTestIgnored,
               `pointerIndex, pointerStore, memory
      ensures Valid() && !currentTestFailed && !currentTestIgnored
      ensures Suite(memory[..], CountersNow())
           == RunItem(pointerStore.Length, options.dryRun, counterLimit, Suite(old(memory[..]), old(CountersNow())),
                      TestCall(t, old(IsSelected(group, name))))
    {
      hide RunPhase, Undo, InRange, Selected, Bump;
      if IsSelected(group, name) {
        numberOfTests := Bump(numberOfTests, counterLimit);
        PointerInit();
        assert Current() == State(old(memory[..]), [], false, false);
        if !options.dryRun {
          ProtectedInRange(t, memory.Length);
          Protect(t.setup + t.body);
          Protect(t.teardown);
        }
        UndoNothing(memory[..]);
        PointerUndoAllSets();
        ConcludeFixtureTest();
      }
    }

    /* A whole run after UnityBegin: the memory and the counters are those of RunItems, to
       which RunAccounting applies. */
    method RunAll(calls: seq<Call>)
      requires Valid() && CallsInRange(calls, memory.Length)
      modifies `numberOfTests, `testFailures, `testIgnores, `currentTestFailed, `currentTestIgnored,
               `pointerIndex, pointerStore, memory
      ensures Valid() && !currentTestFailed && !currentTestIgnored
      ensures ItemsInRange(ItemsOf(calls, options), memory.Length)
      ensures Suite(memory[..], CountersNow())
           == RunItems(pointerStore.Length, options.dryRun, counterLimit, Suite(old(memory[..]), ZEROED),
                       ItemsOf(calls, options))
    {
      hide RunItem, RunItems, ItemsOf, ItemOf, Selected, TestInRange, ItemsInRange;
      Begin();
      ghost var s := Suite(memory[..], ZEROED);
      RunNone(pointerStore.Length, counterLimit, options, s);
      assert calls[..0] == [] && calls[..|calls|] == calls;
      for i := 0 to |calls|
        invariant Valid() && !currentTestFailed && !currentTestIgnored
        invariant ItemsInRange(ItemsOf(calls[..i], options), memory.Length)
        invariant Suite(memory[..], CountersNow())
               == RunItems(pointerStore.Length, options.dryRun, counterLimit, s, ItemsOf(calls[..i], options))
      {
        RunOneMore(pointerStore.Length, counterLimit, options, s, calls, i);
        SelectedItem(calls[i], options);
        match calls[i]
        case RunTest(test, group, name) => TestRunner(test, group, name);
        case RunIgnored(group, name) => IgnoreTest(group, name);
      }
    }

    method IgnoreTest(group: string, name: string)
      requires counterLimit > 0
      modifies `numberOfTests, `testIgnores
      ensures Suite(memory[..], CountersNow())
           == RunItem(pointerStore.Length, options.dryRun, counterLimit, Suite(memory[..], old(CountersNow())),
                      IgnoreCall(old(IsSelected(group, name))))
    {
      if IsSelected(group, name) {
        numberOfTests := Bump(numberOfTests, counterLimit);
        testIgnores := Bump(testIgnores, counterLimit);
      }
    }
  }

  lemma RunNone(max: nat, limit: nat, o: Options, s: Suite)
    requires limit > 0
    ensures ItemsInRange(ItemsOf([], o), |s.cells|)
    ensures RunItems(max, o.dryRun, limit, s, ItemsOf([], o)) == s
  {
  }

  lemma SelectedItem(call: Call, o: Options)
    ensures var selected := Selected(o.nameFilter, o.name, call.name) && Selected(o.groupFilter, o.group, call.group);
            ItemOf(call, o) == if call.RunTest? then TestCall(call.test, selected) else IgnoreCall(selected)
  {
  }

  lemma RunOneMore(max: nat, limit: nat, o: Options, s: Suite, calls: seq<Call>, i: nat)
    requires limit > 0 && i < |calls| && CallsInRange(calls, |s.cells|)
    ensures ItemsInRange(ItemsOf(calls[..i], o), |s.cells|) && ItemsInRange(ItemsOf(calls[..i + 1], o), |s.cells|)
    ensures ItemOf(calls[i], o).TestCall? ==> TestInRange(calls[i].test, |s.cells|)
    ensures var before := RunItems(max, o.dryRun, limit, s, ItemsOf(calls[..i], o));
            RunItems(max, o.dryRun, limit, s, ItemsOf(calls[..i + 1], o))
            == RunItem(max, o.dryRun, limit, before, ItemOf(calls[i], o))
  {
    hide RunItem, TestInRange, Selected;
    var items := ItemsOf(calls[..i + 1], o);
    assert items[..i] == ItemsOf(calls[..i], o);
  }

  lemma ProtectedInRange(t: Test, n: nat)
    requires TestInRange(t, n)
    ensures InRange(t.setup + t.body, n)
  {
  }

  lemma UndoNothing(cells: seq<Value>)
    ensures Undo(cells, []) == cells
  {
  }
}
