/** What `lazy` promises: within a test the creator runs once and every access
    goes to the same cached value (direct calls and forwarded member calls
    alike); after the test the cleanup runs once with that value and the slot
    is empty again; a lazy whose creator calls another lazy holds that lazy's
    value. */
module LazyFacts {
  import opened JsValues
  import opened Zest
  import opened Steps

  /* ---------------------------------------------------------------------- */
  /* Counting creator calls                                                  */

  predicate IsCreationOf(e: Event, slot: nat) {
    e.Created? && e.source == FromLazy(slot)
  }

  /** How many times the log says the creator of lazy `slot` ran. */
  function Creations(log: seq<Event>, slot: nat): nat {
    if log == [] then 0
    else Creations(log[..|log| - 1], slot) + (if IsCreationOf(log[|log| - 1], slot) then 1 else 0)
  }

  lemma {:induction false} CreationsAppend(a: seq<Event>, b: seq<Event>, slot: nat)
    ensures Creations(a + b, slot) == Creations(a, slot) + Creations(b, slot)
    decreases |b|
  {
    if b == [] {
      assert a + b == a;
    } else {
      assert (a + b)[..|a + b| - 1] == a + b[..|b| - 1];
      CreationsAppend(a, b[..|b| - 1], slot);
    }
  }

  lemma {:induction false} CreationsNone(events: seq<Event>, slot: nat)
    requires forall e :: e in events ==> !IsCreationOf(e, slot)
    ensures Creations(events, slot) == 0
    decreases |events|
  {
    if events != [] {
      assert forall e :: e in events[..|events| - 1] ==> e in events;
      CreationsNone(events[..|events| - 1], slot);
      assert events[|events| - 1] in events;
    }
  }

  /** A log that grew only by events other than creations of `slot`. */
  lemma CreationsOfExtension(log: seq<Event>, log': seq<Event>, slot: nat)
    requires log <= log'
    requires forall e :: e in log'[|log|..] ==> !IsCreationOf(e, slot)
    ensures Creations(log', slot) == Creations(log, slot)
  {
    assert log' == log + log'[|log|..];
    CreationsAppend(log, log'[|log|..], slot);
    CreationsNone(log'[|log|..], slot);
  }

  /* ---------------------------------------------------------------------- */
  /* One call                                                                */

  /** A log that grew by events other than creations of `slot`, then by one
      last event. */
  lemma CreationsOfGrowth(log: seq<Event>, log': seq<Event>, slot: nat)
    requires log < log'
    requires forall e :: e in log'[|log|..|log'| - 1] ==> !IsCreationOf(e, slot)
    ensures Creations(log', slot) == Creations(log, slot) + (if IsCreationOf(log'[|log'| - 1], slot) then 1 else 0)
  {
    var middle := log'[|log|..|log'| - 1];
    assert log'[..|log'| - 1] == log + middle;
    CreationsAppend(log, middle, slot);
    CreationsNone(middle, slot);
  }

  /** A call runs the creator of its own lazy once when the slot is falsy
      and the call completes, and not at all otherwise: a call that throws
      (a cycle, an undefined inner lazy) logs no creation of its own lazy. */
  lemma LazyApplyInCreations(env: Env, w: World, slot: nat, active: set<nat>)
    requires Valid(w) && w.status == Running && slot < |w.lazyDefs|
    ensures var r := LazyApplyIn(env, w, slot, active);
            Creations(r.0.log, slot) ==
              Creations(w.log, slot) + (if !Truthy(w.current[slot]) && r.0.status == Running then 1 else 0)
  {
    var r := LazyApplyIn(env, w, slot, active);
    if !Truthy(w.current[slot]) {
      if r.0.status == Running {
        forall e | e in r.0.log[|w.log|..|r.0.log| - 1]
          ensures !IsCreationOf(e, slot)
        {
          assert CreatedOutside(e, active + {slot});
        }
        CreationsOfGrowth(w.log, r.0.log, slot);
      } else {
        forall e | e in r.0.log[|w.log|..]
          ensures !IsCreationOf(e, slot)
        {
          assert CreatedOutside(e, active + {slot});
        }
        CreationsOfExtension(w.log, r.0.log, slot);
      }
    }
  }

  /** A direct call from a test body runs the creator exactly when the slot
      is falsy and the call does not throw, and then exactly once. */
  lemma LazyApplyCreations(env: Env, w: World, slot: nat)
    requires Valid(w) && w.status == Running && slot < |w.lazyDefs|
    ensures var r := LazyApply(env, w, slot);
            Creations(r.0.log, slot) ==
              Creations(w.log, slot) + (if !Truthy(w.current[slot]) && r.0.status == Running then 1 else 0)
  {
    LazyApplyInCreations(env, w, slot, {});
  }

  /** Two direct calls: the second returns the first's value and changes
      nothing when that value is truthy; a falsy value is created again. */
  lemma LazyMemoizes(env: Env, w: World, slot: nat)
    requires Valid(w) && w.status == Running && slot < |w.lazyDefs|
    ensures var (w1, v1) := LazyApply(env, w, slot);
            w1.status == Running ==>
              var (w2, v2) := LazyApply(env, w1, slot);
              (Truthy(v1) ==> w2 == w1 && v2 == v1) &&
              Creations(w2.log, slot) ==
                Creations(w.log, slot) + (if Truthy(w.current[slot]) then 0 else 1) +
                (if Truthy(v1) || w2.status != Running then 0 else 1)
  {
    var (w1, v1) := LazyApply(env, w, slot);
    LazyApplyCreations(env, w, slot);
    if w1.status == Running {
      LazyApplyCreations(env, w1, slot);
    }
  }

  /** The forwarder's call fills the slot exactly as a direct call does.
      Then: a throw while filling ends it there; a null or undefined value
      throws a TypeError when its member is read; otherwise member `key` of
      that same value is called with the value as receiver, or undefined is
      returned when the member is not a function. */
  lemma ForwardedCallSharesSlot(env: Env, w: World, slot: nat, key: PropKey, args: seq<Value>)
    requires Valid(w) && w.status == Running && slot < |w.lazyDefs|
    ensures var (wd, v) := LazyApply(env, w, slot);
            var (wf, result) := ForwardedCall(env, w, slot, key, args);
            var member := GetProperty(v, key);
            wf.current == wd.current && wf.objects == wd.objects &&
            Creations(wf.log, slot) == Creations(wd.log, slot) &&
            (wd.status != Running ==> wf == wd && result == Undefined) &&
            (wd.status == Running && IsNullish(v) ==> wf == wd.(status := Threw(TypeError)) && result == Undefined) &&
            (wd.status == Running && !IsNullish(v) && IsFunction(member) ==>
               wf == wd.(log := wd.log + [Invoked(member.id, v, args)]) && result == env.natives(member.id, v, args)) &&
            (wd.status == Running && !IsNullish(v) && !IsFunction(member) ==> wf == wd && result == Undefined)
  {
    var (wd, v) := LazyApply(env, w, slot);
    var member := GetProperty(v, key);
    if wd.status == Running && !IsNullish(v) && IsFunction(member) {
      CreationsAppend(wd.log, [Invoked(member.id, v, args)], slot);
      assert [Invoked(member.id, v, args)][..0] == [];
    }
  }

  /** Direct call, then forwarded call: the member is called on the value the
      direct call returned, and the creator does not run again. */
  lemma DirectThenForwarded(env: Env, w: World, slot: nat, key: PropKey, args: seq<Value>)
    requires Valid(w) && w.status == Running && slot < |w.lazyDefs|
    ensures var (w1, v) := LazyApply(env, w, slot);
            Truthy(v) ==>
              w1.status == Running &&
              var (w2, result) := ForwardedCall(env, w1, slot, key, args);
              w2.current == w1.current &&
              Creations(w2.log, slot) == Creations(w1.log, slot) &&
              (IsFunction(GetProperty(v, key)) ==>
                 w2.log[|w2.log| - 1] == Invoked(GetProperty(v, key).id, v, args) &&
                 result == env.natives(GetProperty(v, key).id, v, args))
  {
    var (w1, v) := LazyApply(env, w, slot);
    if Truthy(v) {
      ForwardedCallSharesSlot(env, w1, slot, key, args);
    }
  }

  /** Forwarded call, then direct call: the direct call returns the receiver
      the member was called on, and the creator does not run again. */
  lemma ForwardedThenDirect(env: Env, w: World, slot: nat, key: PropKey, args: seq<Value>)
    requires Valid(w) && w.status == Running && slot < |w.lazyDefs|
    ensures var (w1, _) := ForwardedCall(env, w, slot, key, args);
            var receiver := LazyApply(env, w, slot).1;
            Truthy(receiver) ==> w1.status == Running && LazyApply(env, w1, slot) == (w1, receiver)
  {
    ForwardedCallSharesSlot(env, w, slot, key, args);
  }

  /** Two lazies whose creators call each other, both empty: calling either
      recurses until the stack overflows, and nothing is created or cached.
      With `a == b` this is a lazy whose creator calls itself. */
  lemma CyclicLaziesThrow(env: Env, w: World, a: nat, b: nat, ka: string, kb: string)
    requires Valid(w) && w.status == Running && a < |w.lazyDefs| && b < |w.lazyDefs|
    requires w.lazyDefs[a].creator == Wrapping(ka, b) && w.lazyDefs[b].creator == Wrapping(kb, a)
    requires !Truthy(w.current[a]) && !Truthy(w.current[b])
    ensures LazyApply(env, w, a) == (w.(status := Threw(RangeError)), Undefined)
  {
    var thrown := w.(status := Threw(RangeError));
    assert {} + {a} == {a};
    if a != b {
      assert {a} + {b} == {a, b};
      assert LazyApplyIn(env, w, a, {a, b}) == (thrown, Undefined);
      assert Create(env, w, Wrapping(kb, a), FromLazy(b), {a, b}) == (thrown, Undefined);
      assert FillSlot(env, w, b, {a}) == (thrown, Undefined);
      assert LazyApplyIn(env, w, b, {a}) == (thrown, Undefined);
    }
    assert Create(env, w, Wrapping(ka, b), FromLazy(a), {a}) == (thrown, Undefined);
    assert FillSlot(env, w, a, {}) == (thrown, Undefined);
  }

  /* ---------------------------------------------------------------------- */
  /* Within one test                                                         */

  /** Between two states of a body: slots that were truthy keep their values,
      and the creator of a lazy ran only if its slot was falsy. */
  predicate KeepsCache(w: World, w': World) {
    w.log <= w'.log && |w'.current| == |w.current| &&
    (forall i :: 0 <= i < |w.current| && Truthy(w.current[i]) ==> w'.current[i] == w.current[i]) &&
    (forall e :: e in w'.log[|w.log|..] ==> FillsEmptySlot(e, w))
  }

  lemma KeepsCacheTransitive(w1: World, w2: World, w3: World)
    requires KeepsCache(w1, w2) && KeepsCache(w2, w3)
    ensures KeepsCache(w1, w3)
  {
    assert w3.log[|w1.log|..] == w2.log[|w1.log|..] + w3.log[|w2.log|..];
  }

  lemma FillsEmptySlotsUpToLast(log: seq<Event>, k: nat, w: World)
    requires k < |log|
    requires forall e :: e in log[k..|log| - 1] ==> FillsEmptySlot(e, w)
    requires FillsEmptySlot(log[|log| - 1], w)
    ensures forall e :: e in log[k..] ==> FillsEmptySlot(e, w)
  {
    assert log[k..] == log[k..|log| - 1] + [log[|log| - 1]];
  }

  lemma CreateFromFreshKeepsCache(env: Env, w: World, c: Creator, factory: nat)
    requires Valid(w) && w.status == Running
    ensures KeepsCache(w, Create(env, w, c, FromFresh(factory), {}).0)
  {
    var r := Create(env, w, c, FromFresh(factory), {});
    if r.0.status == Running {
      FillsEmptySlotsUpToLast(r.0.log, |w.log|, w);
    }
  }

  lemma ForwardedCallKeepsCache(env: Env, w: World, slot: nat, key: PropKey, args: seq<Value>)
    requires Valid(w) && w.status == Running && slot < |w.lazyDefs|
    ensures KeepsCache(w, ForwardedCall(env, w, slot, key, args).0)
  {
    var w1 := LazyApply(env, w, slot).0;
    var wf := ForwardedCall(env, w, slot, key, args).0;
    assert KeepsCache(w1, wf) by {
      assert wf.current == w1.current && w1.log <= wf.log;
      assert forall e :: e in wf.log[|w1.log|..] ==> !e.Created?;
    }
    KeepsCacheTransitive(w, w1, wf);
  }

  lemma FreshCreateKeepsCache(env: Env, w: World, factory: nat)
    requires Valid(w) && w.status == Running && factory < |w.freshDefs|
    ensures KeepsCache(w, FreshCreate(env, w, factory).0)
  {
    CreateFromFreshKeepsCache(env, w, w.freshDefs[factory], factory);
  }

  lemma UnchangedKeepsCache(w: World)
    ensures KeepsCache(w, w)
  {
    assert w.log[|w.log|..] == [];
  }

  /** No step of a body replaces a truthy cached value. */
  lemma PerformKeepsCache(env: Env, w: World, a: Action)
    requires Valid(w) && ActionOk(a, BoundsOf(w))
    ensures KeepsCache(w, Perform(env, w, a).0)
  {
    UnchangedKeepsCache(w);
    if w.status == Running {
      match a
      case CallLazy(i) =>
      case CallMember(i, key, args) =>
        if key != Key("calls") {
          ForwardedCallKeepsCache(env, w, i, key, args);
        }
      case CallVary(i) =>
      case ConstructVary(i, args) =>
        assert VaryConstruct(w, i, args).0.log == w.log;
      case CallFresh(i) => FreshCreateKeepsCache(env, w, i);
      case GetFresh(i, key) => FreshCreateKeepsCache(env, w, i);
    }
  }

  lemma {:induction false} KeepsCacheBetween(env: Env, w: World, body: seq<Action>, i: nat, j: nat)
    requires Valid(w) && ActionsOk(body, BoundsOf(w)) && i <= j <= |body|
    ensures KeepsCache(StateAt(env, w, body, i), StateAt(env, w, body, j))
    decreases j
  {
    var si := StateAt(env, w, body, i);
    if i == j {
      assert si.log[|si.log|..] == [];
    } else {
      KeepsCacheBetween(env, w, body, i, j - 1);
      PerformAllStep(env, w, body, j - 1);
      PerformKeepsCache(env, StateAt(env, w, body, j - 1), body[j - 1]);
      KeepsCacheTransitive(si, StateAt(env, w, body, j - 1), StateAt(env, w, body, j));
    }
  }

  /** Within one test, once a direct call returned a truthy value, every
      later direct call in the body returns that same value unless the body
      threw before it, and the creator does not run in between. */
  lemma LazyMemoizedInTest(env: Env, w: World, body: seq<Action>, slot: nat, i: nat, j: nat)
    requires Valid(w) && ActionsOk(body, BoundsOf(w)) && i < j < |body|
    requires body[i] == CallLazy(slot) && body[j] == CallLazy(slot)
    requires Truthy(RunTest(env, w, body).1[i])
    ensures RunTest(env, w, body).1[j] ==
            if StateAt(env, TestStart(w), body, j).status == Running then RunTest(env, w, body).1[i] else Undefined
    ensures Creations(StateAt(env, TestStart(w), body, j + 1).log, slot) ==
            Creations(StateAt(env, TestStart(w), body, i + 1).log, slot)
  {
    var start := TestStart(w);
    PerformAllStep(env, start, body, i);
    PerformAllStep(env, start, body, j);
    var after := StateAt(env, start, body, i + 1);
    var later := StateAt(env, start, body, j + 1);
    KeepsCacheBetween(env, start, body, i + 1, j);
    KeepsCacheBetween(env, start, body, i + 1, j + 1);
    assert after.current[slot] == RunTest(env, w, body).1[i];
    CreationsOfExtension(after.log, later.log, slot);
  }

  /** Within one test, a direct call that returned a truthy value, then a
      forwarded call of the same lazy later in the body: unless the body
      threw before it, the member is looked up on that same value and called
      with it as receiver, and the creator does not run in between. */
  lemma ForwardedAfterDirectInTest(env: Env, w: World, body: seq<Action>, slot: nat, key: PropKey,
                                   args: seq<Value>, i: nat, j: nat)
    requires Valid(w) && ActionsOk(body, BoundsOf(w)) && i < j < |body|
    requires body[i] == CallLazy(slot) && body[j] == CallMember(slot, key, args) && key != Key("calls")
    requires Truthy(RunTest(env, w, body).1[i])
    ensures var seen := RunTest(env, w, body).1;
            var s := StateAt(env, TestStart(w), body, j);
            var s' := StateAt(env, TestStart(w), body, j + 1);
            var member := GetProperty(seen[i], key);
            Creations(s'.log, slot) == Creations(StateAt(env, TestStart(w), body, i + 1).log, slot) &&
            (s.status != Running ==> s' == s && seen[j] == Undefined) &&
            (s.status == Running && IsFunction(member) ==>
               s' == s.(log := s.log + [Invoked(member.id, seen[i], args)]) &&
               seen[j] == env.natives(member.id, seen[i], args)) &&
            (s.status == Running && !IsFunction(member) ==> s' == s && seen[j] == Undefined)
  {
    var start := TestStart(w);
    PerformAllStep(env, start, body, i);
    PerformAllStep(env, start, body, j);
    var after := StateAt(env, start, body, i + 1);
    var s := StateAt(env, start, body, j);
    KeepsCacheBetween(env, start, body, i + 1, j);
    KeepsCacheBetween(env, start, body, i + 1, j + 1);
    assert after.current[slot] == RunTest(env, w, body).1[i];
    assert s.current[slot] == RunTest(env, w, body).1[i];
    CreationsOfExtension(after.log, StateAt(env, start, body, j + 1).log, slot);
  }

  /** Within one test, a forwarded call that leaves a truthy value cached,
      then a direct call later in the body: unless the body threw before it,
      the direct call returns that value, and the creator does not run in
      between. */
  lemma DirectAfterForwardedInTest(env: Env, w: World, body: seq<Action>, slot: nat, key: PropKey,
                                   args: seq<Value>, i: nat, j: nat)
    requires Valid(w) && ActionsOk(body, BoundsOf(w)) && i < j < |body|
    requires body[i] == CallMember(slot, key, args) && body[j] == CallLazy(slot)
    requires var after := StateAt(env, TestStart(w), body, i + 1);
             slot < |after.current| && Truthy(after.current[slot])
    ensures var cached := StateAt(env, TestStart(w), body, i + 1).current[slot];
            RunTest(env, w, body).1[j] ==
              if StateAt(env, TestStart(w), body, j).status == Running then cached else Undefined
    ensures Creations(StateAt(env, TestStart(w), body, j + 1).log, slot) ==
            Creations(StateAt(env, TestStart(w), body, i + 1).log, slot)
  {
    var start := TestStart(w);
    PerformAllStep(env, start, body, j);
    var after := StateAt(env, start, body, i + 1);
    var later := StateAt(env, start, body, j + 1);
    KeepsCacheBetween(env, start, body, i + 1, j);
    KeepsCacheBetween(env, start, body, i + 1, j + 1);
    CreationsOfExtension(after.log, later.log, slot);
  }

  /* ---------------------------------------------------------------------- */
  /* After a test                                                            */

  /** How the log says cleanup ran for lazy `slot`: the values, in order. */
  function Cleanups(log: seq<Event>, slot: nat): seq<Value> {
    if log == [] then []
    else
      var e := log[|log| - 1];
      Cleanups(log[..|log| - 1], slot) + (if e.CleanedUp? && e.slot == slot then [e.value] else [])
  }

  /** What the afterEach of `lazy` does: its cleanup, once, with the cached
      value when there was one and cleanup was given; then an empty slot. */
  function CleanupFor(w: World, slot: nat): seq<Value>
    requires slot < |w.lazyDefs| && |w.current| == |w.lazyDefs|
  {
    if w.lazyDefs[slot].hasCleanup && !IsNullish(w.current[slot]) then [w.current[slot]] else []
  }

  /** A hook other than the slot's own reset leaves the slot and its
      cleanups alone. */
  lemma RunHookOtherSlot(w: World, k: Hook, slot: nat)
    requires Valid(w) && HookOk(k, BoundsOf(w)) && slot < |w.lazyDefs| && k != ResetLazy(slot)
    ensures RunHook(w, k).current[slot] == w.current[slot]
    ensures Cleanups(RunHook(w, k).log, slot) == Cleanups(w.log, slot)
  {
    match k
    case ResetLazy(i) =>
      if w.lazyDefs[i].hasCleanup && !IsNullish(w.current[i]) {
        assert (w.log + [CleanedUp(i, w.current[i])])[..|w.log|] == w.log;
      }
    case AssignVary(_, _) =>
    case Refresh(i, t) =>
      assert (w.log + [Refreshed(i, t)])[..|w.log|] == w.log;
  }

  /** Hooks other than the slot's own reset leave the slot and its cleanups
      alone. */
  lemma {:induction false} OtherHooksKeepSlot(w: World, hs: seq<Hook>, slot: nat)
    requires Valid(w) && HooksOk(hs, BoundsOf(w)) && slot < |w.lazyDefs|
    requires ResetLazy(slot) !in hs
    ensures RunHooks(w, hs).current[slot] == w.current[slot]
    ensures Cleanups(RunHooks(w, hs).log, slot) == Cleanups(w.log, slot)
    decreases |hs|
  {
    if hs != [] {
      var pre := hs[..|hs| - 1];
      assert forall k :: k in pre ==> k in hs;
      assert hs[|hs| - 1] in hs;
      OtherHooksKeepSlot(w, pre, slot);
      RunHookOtherSlot(RunHooks(w, pre), hs[|hs| - 1], slot);
    }
  }

  /** A hook list holding the slot's reset exactly once runs the cleanup
      exactly once, with the value cached before the hooks ran, and leaves
      the slot empty. */
  lemma {:induction false} ResetOnce(w: World, hs: seq<Hook>, slot: nat)
    requires Valid(w) && HooksOk(hs, BoundsOf(w)) && slot < |w.lazyDefs|
    requires multiset(hs)[ResetLazy(slot)] == 1
    ensures RunHooks(w, hs).current[slot] == Undefined
    ensures Cleanups(RunHooks(w, hs).log, slot) == Cleanups(w.log, slot) + CleanupFor(w, slot)
    decreases |hs|
  {
    var pre, last := hs[..|hs| - 1], hs[|hs| - 1];
    assert hs == pre + [last];
    assert forall k :: k in pre ==> k in hs;
    assert last in hs;
    var mid := RunHooks(w, pre);
    if last == ResetLazy(slot) {
      assert multiset(pre)[ResetLazy(slot)] == 0;
      OtherHooksKeepSlot(w, pre, slot);
      if mid.lazyDefs[slot].hasCleanup && !IsNullish(mid.current[slot]) {
        assert (mid.log + [CleanedUp(slot, mid.current[slot])])[..|mid.log|] == mid.log;
      }
    } else {
      ResetOnce(w, pre, slot);
      RunHookOtherSlot(mid, last, slot);
    }
  }

  /** A slot whose reset is among the hooks is empty after them. */
  lemma {:induction false} ResetEmpties(w: World, hs: seq<Hook>, slot: nat)
    requires Valid(w) && HooksOk(hs, BoundsOf(w)) && slot < |w.lazyDefs|
    requires ResetLazy(slot) in hs
    ensures RunHooks(w, hs).current[slot] == Undefined
    decreases |hs|
  {
    var pre, last := hs[..|hs| - 1], hs[|hs| - 1];
    assert hs == pre + [last];
    assert forall k :: k in pre ==> k in hs;
    assert last in hs;
    if last != ResetLazy(slot) {
      ResetEmpties(w, pre, slot);
    }
  }

  /** No cached value leaks into the next test: a lazy created in an
      enclosing scope is empty once a test has finished. */
  lemma NoLeakAfterTest(env: Env, w: World, body: seq<Action>, slot: nat)
    requires Valid(w) && ActionsOk(body, BoundsOf(w)) && slot < |w.lazyDefs|
    requires ResetLazy(slot) in AfterHooks(w.scopes)
    ensures RunTest(env, w, body).0.current[slot] == Undefined
  {
    RunTestPhases(env, w, body);
    var ran := PerformAll(env, TestStart(w), body).0;
    ResetEmpties(ran, AfterHooks(ran.scopes), slot);
  }

  /** After a test, the cleanup of a lazy created once in the enclosing
      scopes has run exactly once, with the value the body left cached, if
      there was one and a cleanup was given. */
  lemma CleanupOncePerTest(env: Env, w: World, body: seq<Action>, slot: nat)
    requires Valid(w) && ActionsOk(body, BoundsOf(w)) && slot < |w.lazyDefs|
    requires multiset(AfterHooks(w.scopes))[ResetLazy(slot)] == 1
    ensures var ran := PerformAll(env, TestStart(w), body).0;
            Cleanups(RunTest(env, w, body).0.log, slot) == Cleanups(ran.log, slot) + CleanupFor(ran, slot)
  {
    RunTestPhases(env, w, body);
    var ran := PerformAll(env, TestStart(w), body).0;
    var own := LastScope(ran.scopes).after;
    assert multiset(own)[ResetLazy(slot)] == 0 by {
      assert ResetLazy(slot) !in own;
    }
    assert multiset(own + AfterHooks(w.scopes)) == multiset(own) + multiset(AfterHooks(w.scopes));
    ResetOnce(ran, AfterHooks(ran.scopes), slot);
  }

  /** `lazy(...)` starts with an empty slot whose reset is registered in the
      current scope. */
  lemma DefinedLazyIsReset(w: World, creator: Creator, hasCleanup: bool)
    requires Valid(w)
    ensures var (w1, slot) := DefineLazy(w, creator, hasCleanup);
            slot == |w.lazyDefs| && w1.current[slot] == Undefined &&
            multiset(AfterHooks(w1.scopes))[ResetLazy(slot)] == 1
  {
    var (w1, slot) := DefineLazy(w, creator, hasCleanup);
    var n := |w.scopes| - 1;
    assert w1.scopes[..n] == w.scopes[..n];
    ResetNotYetRegistered(w.scopes, slot, BoundsOf(w));
    assert AfterHooks(w1.scopes) == LastScope(w.scopes).after + [ResetLazy(slot)] + AfterHooks(w.scopes[..n]);
    assert AfterHooks(w.scopes) == LastScope(w.scopes).after + AfterHooks(w.scopes[..n]);
  }

  lemma {:induction false} ResetNotYetRegistered(scopes: seq<Scope>, slot: nat, b: Bounds)
    requires ScopesOk(scopes, b) && b.lazies <= slot
    ensures ResetLazy(slot) !in AfterHooks(scopes)
    decreases |scopes|
  {
    if scopes != [] {
      assert LastScope(scopes) in scopes;
      assert forall s :: s in scopes[..|scopes| - 1] ==> s in scopes;
      ResetNotYetRegistered(scopes[..|scopes| - 1], slot, b);
    }
  }

  /* ---------------------------------------------------------------------- */
  /* Chained lazies                                                          */

  /** An outer lazy whose creator wraps the inner lazy's value, whichever of
      the two was defined first. If the inner handle is not defined yet the
      creator throws a ReferenceError. Otherwise the inner lazy is called
      first, while the outer creator runs; if that throws, so does the
      outer call. If not, the outer value is a new object holding the inner
      value under `key`, the inner slot now holds that value, and calling the
      inner lazy next returns it without running its creator again. */
  lemma ChainedLazyComposes(env: Env, w: World, outer: nat, key: string, inner: nat)
    requires Valid(w) && w.status == Running && outer < |w.lazyDefs|
    requires w.lazyDefs[outer].creator == Wrapping(key, inner)
    requires !Truthy(w.current[outer])
    ensures inner >= |w.lazyDefs| ==> LazyApply(env, w, outer) == (w.(status := Threw(ReferenceError)), Undefined)
    ensures inner < |w.lazyDefs| ==>
      var (wi, vi) := LazyApplyIn(env, w, inner, {outer});
      var (w1, v) := LazyApply(env, w, outer);
      (wi.status != Running ==> w1 == wi && v == Undefined) &&
      (wi.status == Running ==>
         w1.status == Running && v == Obj(wi.objects, map[key := vi]) && GetProperty(v, Key(key)) == vi &&
         w1.current[inner] == vi && w1.current[outer] == v &&
         Creations(w1.log, inner) == Creations(w.log, inner) + (if Truthy(w.current[inner]) then 0 else 1) &&
         (Truthy(vi) ==> LazyApply(env, w1, inner) == (w1, vi)))
  {
    assert {} + {outer} == {outer};
    var c := Create(env, w, Wrapping(key, inner), FromLazy(outer), {outer});
    assert LazyApply(env, w, outer) == FillSlot(env, w, outer, {});
    assert FillSlot(env, w, outer, {}) ==
      if c.0.status != Running then (c.0, Undefined) else (c.0.(current := c.0.current[outer := c.1]), c.1);
    if inner < |w.lazyDefs| {
      var (wi, vi) := LazyApplyIn(env, w, inner, {outer});
      LazyApplyInCreations(env, w, inner, {outer});
      if wi.status == Running {
        var v := Obj(wi.objects, map[key := vi]);
        var w2 := wi.(log := wi.log + [Created(FromLazy(outer), v)], objects := wi.objects + 1);
        assert Create(env, w, Wrapping(key, inner), FromLazy(outer), {outer}) == (w2, v);
        CreationsAppend(wi.log, [Created(FromLazy(outer), v)], inner);
        assert [Created(FromLazy(outer), v)][..0] == [];
      }
    }
  }
}
